/**
 * The attribute list of src/attr.c: `snipx`, and m3u8_attr_parse, _from_key,
 * _count and _destroy over a list of attribute nodes headed by a sentinel.
 */
module Attr {
  import opened Wrappers
  import opened AttrMatch
  import List

  /** The M3U8_ATTR_STATUS_* codes of src/attr.h. */
  datatype Status = NoError | InvalidArg | MemAllocError | RegPatternError | ListError | NotFound {
    function Code(): int {
      match this
      case NoError => 0x03
      case InvalidArg => 0x04
      case MemAllocError => 0x05
      case RegPatternError => 0x06
      case ListError => 0x07
      case NotFound => 0x08
    }
  }

  /** A parsed attribute: its key and its value, as stored. */
  datatype Attribute = Attribute(key: string, value: string)

  // ---------------------------------------------------------------------
  // C strings held in character arrays

  /** The length of the C string at the start of `a`: the position of its first NUL. */
  function Strlen(a: seq<char>): (n: nat)
    requires '\0' in a
    ensures n < |a| && a[n] == '\0' && '\0' !in a[..n]
  {
    if a[0] == '\0' then 0 else 1 + Strlen(a[1..])
  }

  /** The C string at the start of `a`: the characters before its first NUL. */
  function CString(a: seq<char>): (r: string)
    requires '\0' in a
    ensures '\0' !in r && |r| < |a| && r == a[..|r|] && a[|r|] == '\0'
  {
    a[..Strlen(a)]
  }

  /**
   * The C string held in `b`, where `b` is `a` after
   * memmove(a + at, a + at + len, strlen(a + at + len) + 1): the C string of
   * `a` with its characters at..at+len-1 cut out.
   */
  lemma {:induction false} MemmoveCut(a: seq<char>, b: seq<char>, at: nat, len: nat)
    requires '\0' in a && at + len <= |CString(a)| && |b| == |a|
    requires forall j :: 0 <= j < at ==> b[j] == a[j]
    requires forall j :: at <= j <= |CString(a)| - len ==> b[j] == a[j + len]
    ensures '\0' in b
    ensures CString(b) == CString(a)[..at] + CString(a)[at + len..]
  {
    var s := CString(a);
    var q := s[..at] + s[at + len..];
    assert b[|q|] == a[|s|] == '\0';
    assert b[|q|] in b;
    forall j | 0 <= j < |q| ensures b[j] == q[j] && b[j] != '\0' {
      if j >= at {
        assert b[j] == a[j + len] == s[j + len];
      }
    }
    assert b[..Strlen(b)] == q;
  }

  // ---------------------------------------------------------------------
  // snipx

  /** `sub` occurs in `s` at position i. */
  predicate OccursAt(s: string, sub: string, i: int)
  {
    0 <= i && i + |sub| <= |s| && s[i..i + |sub|] == sub
  }

  /** The first position where `sub` occurs in `s`: the strstr of the C library. */
  function FindSub(s: string, sub: string): (r: Option<nat>)
    ensures r.Some? ==> OccursAt(s, sub, r.value)
    ensures r.Some? ==> forall i :: 0 <= i < r.value ==> !OccursAt(s, sub, i)
    ensures r.None? ==> forall i :: !OccursAt(s, sub, i)
  {
    FindSubFrom(s, sub, 0)
  }

  /** The first position at or after `from` where `sub` occurs in `s`. */
  function FindSubFrom(s: string, sub: string, from: nat): (r: Option<nat>)
    ensures r.Some? ==> from <= r.value && OccursAt(s, sub, r.value)
    ensures r.Some? ==> forall i :: from <= i < r.value ==> !OccursAt(s, sub, i)
    ensures r.None? ==> forall i :: from <= i ==> !OccursAt(s, sub, i)
    decreases |s| - from
  {
    if from + |sub| > |s| then None
    else if s[from..from + |sub|] == sub then Some(from)
    else FindSubFrom(s, sub, from + 1)
  }

  /**
   * What snipx leaves of `s`: it deletes the first occurrence of `sub`, then
   * searches again from the start, until none is left. (Deleting one
   * occurrence can join two pieces into a new one, which is deleted too.)
   */
  function Snip(s: string, sub: string): (r: string)
    requires sub != []
    ensures |r| <= |s|
    ensures forall i :: !OccursAt(r, sub, i)
    decreases |s|
  {
    match FindSub(s, sub)
    case None => s
    case Some(i) => Snip(s[..i] + s[i + |sub|..], sub)
  }

  /** `s` with every `c` removed, the other characters kept in order. */
  function Without(s: string, c: char): (r: string)
  {
    if s == [] then []
    else (if s[0] == c then [] else [s[0]]) + Without(s[1..], c)
  }

  /** Without distributes over concatenation. */
  lemma {:induction false} WithoutConcat(a: string, b: string, c: char)
    ensures Without(a + b, c) == Without(a, c) + Without(b, c)
  {
    if a == [] {
      assert a + b == b;
    } else {
      assert (a + b)[0] == a[0];
      assert (a + b)[1..] == a[1..] + b;
      WithoutConcat(a[1..], b, c);
    }
  }

  /** Without is the identity on a string that does not hold `c`. */
  lemma {:induction false} WithoutAbsent(s: string, c: char)
    requires c !in s
    ensures Without(s, c) == s
  {
    if s != [] {
      assert c !in s[1..];
      WithoutAbsent(s[1..], c);
    }
  }

  /** Snipping a one-character string removes exactly the occurrences of that character. */
  lemma {:induction false} SnipOneChar(s: string, c: char)
    ensures Snip(s, [c]) == Without(s, c)
    decreases |s|
  {
    match FindSub(s, [c])
    case None =>
      forall j | 0 <= j < |s| ensures s[j] != c {
        assert !OccursAt(s, [c], j);
      }
      WithoutAbsent(s, c);
    case Some(i) =>
      var front, back := s[..i], s[i + 1..];
      assert s[i..i + 1] == [c];
      assert s == front + ([c] + back);
      assert ([c] + back)[1..] == back;
      calc {
        Snip(s, [c]);
        Snip(front + back, [c]);
        { SnipOneChar(front + back, c); }
        Without(front + back, c);
        { WithoutConcat(front, back, c); }
        Without(front, c) + Without(back, c);
        Without(front, c) + Without([c] + back, c);
        { WithoutConcat(front, [c] + back, c); }
        Without(s, c);
      }
  }

  /** A quote-free string: what Snip(_, "\"") always yields. */
  lemma SnipQuoteLeavesNoQuote(s: string)
    ensures '"' !in Snip(s, "\"")
  {
    var r := Snip(s, "\"");
    forall j | 0 <= j < |r| ensures r[j] != '"' {
      assert !OccursAt(r, "\"", j);
    }
  }

  /**
   * snipx: delete every occurrence of the C string `sub` from the C string
   * held in `str`, in place; an empty `sub` leaves `str` alone.
   */
  method Snipx(str: array<char>, sub: string)
    requires '\0' in str[..] && '\0' !in sub
    modifies str
    ensures '\0' in str[..]
    ensures sub == [] ==> str[..] == old(str[..])
    ensures sub != [] ==> CString(str[..]) == Snip(old(CString(str[..])), sub)
  {
    var lenSub := |sub|;
    if lenSub == 0 {
      return;
    }
    var hit := FindSub(CString(str[..]), sub);
    while hit.Some?
      invariant '\0' in str[..]
      invariant Snip(CString(str[..]), sub) == Snip(old(CString(str[..])), sub)
      invariant hit == FindSub(CString(str[..]), sub)
      decreases Strlen(str[..])
    {
      ghost var before := str[..];
      var at := hit.value;
      var tail := Strlen(str[..]) - (at + lenSub);
      // memmove(match, match + len_sub, strlen(match + len_sub) + 1)
      forall j | at <= j < at + tail + 1 {
        str[j] := str[j + lenSub];
      }
      MemmoveCut(before, str[..], at, lenSub);
      hit := FindSub(CString(str[..]), sub);
    }
  }

  /** A C string of `q` in a buffer one longer than it: the terminator found is the one added. */
  lemma CStringTerminated(a: seq<char>, q: string)
    requires a == q + ['\0'] && '\0' !in q
    ensures '\0' in a && CString(a) == q
  {
    assert a[|q|] == '\0';
    assert a[..|q|] == q;
  }

  // ---------------------------------------------------------------------
  // Parsing

  /**
   * The attribute a match stands for: the key as matched and the value with
   * its double quotes snipped out.
   */
  function EntryOf(s: string, m: Match): (r: Attribute)
    requires m.Within(s)
    ensures |r.key| == m.keyEnd - m.start > 0 && '"' !in r.value
  {
    SnipQuoteLeavesNoQuote(s[m.keyEnd + 1..m.end]);
    Attribute(s[m.start..m.keyEnd], Snip(s[m.keyEnd + 1..m.end], "\""))
  }

  /** A parsed attribute's shape: a non-empty key of `[A-Z0-9_-]` and a value free of double quotes. */
  predicate WellFormed(a: Attribute)
  {
    a.key != [] && (forall j :: 0 <= j < |a.key| ==> IsKeyChar(a.key[j])) && '"' !in a.value
  }

  /**
   * The attributes that m3u8_attr_parse finds in `s` from `from` on: the
   * leftmost-longest match, then the same again from where that match ends.
   */
  function Entries(s: string, from: nat): seq<Attribute>
    requires from <= |s|
    decreases |s| - from
  {
    match NextMatch(s, from)
    case None => []
    case Some(m) => [EntryOf(s, m)] + Entries(s, m.end)
  }

  /** Each attribute parsed takes at least three characters (key, `=`, value), so there are at most a third as many. */
  lemma {:induction false} EntriesBound(s: string, from: nat)
    requires from <= |s|
    ensures 3 * |Entries(s, from)| <= |s| - from
    decreases |s| - from
  {
    match NextMatch(s, from)
    case None =>
    case Some(m) =>
      EntriesBound(s, m.end);
  }

  /** Every attribute parsed has a non-empty key of key characters and a value with no double quote. */
  lemma {:induction false} EntriesWellFormed(s: string, from: nat)
    requires from <= |s|
    ensures forall i :: 0 <= i < |Entries(s, from)| ==> WellFormed(Entries(s, from)[i])
    decreases |s| - from
  {
    match NextMatch(s, from)
    case None =>
    case Some(m) =>
      NextMatchCorrect(s, from);
      SnipQuoteLeavesNoQuote(s[m.keyEnd + 1..m.end]);
      EntriesWellFormed(s, m.end);
  }

  /**
   * The parse finds nothing exactly when no part of `s` from `from` on
   * matches the attribute pattern; otherwise its first attribute is the
   * leftmost-longest match.
   */
  lemma EntriesEmpty(s: string, from: nat)
    requires from <= |s|
    ensures Entries(s, from) == [] <==> forall p, k, e :: from <= p ==> !IsMatch(s, p, k, e)
    ensures Entries(s, from) != [] ==> Entries(s, from)[0] == EntryOf(s, NextMatch(s, from).value)
  {
    NextMatchCorrect(s, from);
  }

  /** When the next match from `from` is m, the parse yields its attribute and then continues from its end. */
  lemma EntriesAt(s: string, from: nat, m: Match)
    requires from <= |s| && NextMatch(s, from) == Some(m)
    ensures m.end <= |s| && Entries(s, from) == [EntryOf(s, m)] + Entries(s, m.end)
  {
  }

  /** The attributes the nodes of a list carry, in list order. */
  function Pairs(elems: seq<List.Node>): (r: seq<Attribute>)
    ensures |r| == |elems|
    ensures forall i :: 0 <= i < |r| ==> r[i] == Attribute(elems[i].key, elems[i].value)
  {
    seq(|elems|, i requires 0 <= i < |elems| => Attribute(elems[i].key, elems[i].value))
  }

  /**
   * One attribute node for the match `m`, as the loop of m3u8_attr_parse
   * builds it: the key and the value copied out of `s` (strndup), then the
   * double quotes snipped out of the value.
   */
  method NewAttribute(s: string, m: Match) returns (attr: List.Node)
    requires m.Within(s) && '\0' !in s
    ensures fresh(attr) && attr.next == null && attr.prev == null
    ensures attr.key == s[m.start..m.keyEnd] && attr.value == Snip(s[m.keyEnd + 1..m.end], "\"")
  {
    var key := s[m.start..m.keyEnd];
    var raw := s[m.keyEnd + 1..m.end];
    assert forall i :: 0 <= i < |raw| ==> raw[i] in s;
    var value := new char[|raw| + 1](i => if 0 <= i < |raw| then raw[i] else '\0');
    assert value[..] == raw + ['\0'];
    CStringTerminated(value[..], raw);
    Snipx(value, "\"");
    attr := new List.Node(key, CString(value[..]));
  }

  /** Appending a node to a list appends its attribute to the list's attributes. */
  lemma PairsAppend(elems: seq<List.Node>, attr: List.Node)
    ensures Pairs(elems + [attr]) == Pairs(elems) + [Attribute(attr.key, attr.value)]
  {
    var before, after := Pairs(elems), Pairs(elems + [attr]);
    assert forall i :: 0 <= i < |before| ==> after[i] == before[i];
  }

  /** One round of the parse loop: the entries still to come lose their first, which the list gains. */
  lemma EntriesStep(s: string, cursor: nat, m: Match, elems: seq<List.Node>, attr: List.Node, total: seq<Attribute>)
    requires cursor <= |s| && NextMatch(s, cursor) == Some(m)
    requires Attribute(attr.key, attr.value) == EntryOf(s, m)
    requires Pairs(elems) + Entries(s, cursor) == total
    ensures m.end <= |s|
    ensures Pairs(elems + [attr]) + Entries(s, m.end) == total
  {
    EntriesAt(s, cursor, m);
    PairsAppend(elems, attr);
    Reassociate(Pairs(elems), EntryOf(s, m), Entries(s, m.end));
  }

  /** Moving one attribute from the front of the rest to the end of the prefix keeps the whole. */
  lemma Reassociate(prefix: seq<Attribute>, e: Attribute, rest: seq<Attribute>)
    ensures (prefix + [e]) + rest == prefix + ([e] + rest)
  {
  }

  /**
   * The body of the parse loop: a new attribute node for the match `m`,
   * inserted before the head, as the last entry of the list.
   */
  method AppendEntry(attrs: List.Node, s: string, m: Match, ghost elems: seq<List.Node>) returns (attr: List.Node)
    requires m.Within(s) && '\0' !in s && List.IsRing(attrs, elems)
    modifies attrs, attrs.prev
    ensures fresh(attr) && List.IsRing(attrs, elems + [attr])
    ensures Attribute(attr.key, attr.value) == EntryOf(s, m)
  {
    attr := NewAttribute(s, m);
    assert attrs.prev == attrs || attrs.prev in elems;
    var _ := List.Inb(attrs, attr, elems);
  }

  /**
   * m3u8_attr_parse: make `attrs` the head of a fresh list holding, in order,
   * one new node per attribute of `buffer`. A null `buffer` (None) or a null
   * `attrs` is refused before anything is touched.
   */
  method Parse(buffer: Option<string>, attrs: List.Node?) returns (status: Status, ghost elems: seq<List.Node>)
    requires buffer.Some? ==> '\0' !in buffer.value
    modifies attrs
    ensures status == (if buffer.None? || attrs == null then InvalidArg else NoError)
    ensures status == InvalidArg ==> unchanged(List.Objects({attrs}))
    ensures status == NoError ==> List.IsRing(attrs, elems) && Pairs(elems) == Entries(buffer.value, 0)
    ensures status == NoError ==> forall n :: n in elems ==> fresh(n)
  {
    if buffer.None? || attrs == null {
      return InvalidArg, [];
    }
    var s := buffer.value;
    var _ := List.Init(attrs);
    elems := [];
    var cursor := 0;
    var hit := NextMatch(s, cursor);
    ghost var total := Entries(s, 0);
    while hit.Some?
      invariant cursor <= |s|
      invariant hit == NextMatch(s, cursor)
      invariant List.IsRing(attrs, elems)
      invariant Pairs(elems) + Entries(s, cursor) == total
      invariant forall n :: n in elems ==> fresh(n)
      decreases |s| - cursor
    {
      var m := hit.value;
      assert attrs.prev == attrs || attrs.prev in elems;
      var attr := AppendEntry(attrs, s, m, elems);
      EntriesStep(s, cursor, m, elems, attr, total);
      forall n | n in elems + [attr] ensures fresh(n) {
        if n != attr { assert n in elems; }
      }
      elems := elems + [attr];
      cursor := m.end;
      hit := NextMatch(s, cursor);
    }
    status := NoError;
  }

  // ---------------------------------------------------------------------
  // Lookup, count and destroy

  /** The position of the first attribute whose key is `key`, if any. */
  function FindKey(pairs: seq<Attribute>, key: string): (r: Option<nat>)
    ensures r.Some? ==> r.value < |pairs| && pairs[r.value].key == key
    ensures r.Some? ==> forall j :: 0 <= j < r.value ==> pairs[j].key != key
    ensures r.None? ==> forall j :: 0 <= j < |pairs| ==> pairs[j].key != key
  {
    if pairs == [] then None
    else if pairs[0].key == key then Some(0)
    else match FindKey(pairs[1..], key)
      case None => None
      case Some(i) => Some(i + 1)
  }

  /**
   * m3u8_attr_from_key. `attr` is the caller's output location before the
   * call (None for a null pointer); the result is what it holds afterwards:
   * the first node of the list whose key is `key`.
   */
  method FromKey(attrs: List.Node?, attr: Option<List.Node?>, key: Option<string>, ghost elems: seq<List.Node>)
    returns (status: Status, attr': Option<List.Node?>)
    requires attrs != null ==> List.IsRing(attrs, elems)
    ensures status == InvalidArg <==> attrs == null || attr.None? || key.None?
    ensures status != InvalidArg ==>
      match FindKey(Pairs(elems), key.value)
      case None => status == NotFound && attr' == attr
      case Some(i) => status == NoError && attr' == Some(elems[i])
    ensures status == InvalidArg ==> attr' == attr
  {
    if attrs == null || attr.None? || key.None? {
      return InvalidArg, attr;
    }
    var pivot := attrs.next;
    ghost var i := 0;
    while pivot != attrs
      invariant 0 <= i <= |elems|
      invariant pivot == (if i < |elems| then elems[i] else attrs)
      invariant forall j :: 0 <= j < i ==> elems[j].key != key.value
      decreases |elems| - i
    {
      if pivot.key == key.value {
        return NoError, Some(pivot);
      }
      pivot := pivot.next;
      i := i + 1;
    }
    return NotFound, attr;
  }

  /**
   * m3u8_attr_count. `size` is the caller's output location before the call
   * (None for a null pointer). Errors of the list count are ignored: a head
   * whose links are still null (a zero-filled attribute) counts as 0.
   */
  method Count(attrs: List.Node?, size: Option<int>, ghost elems: seq<List.Node>) returns (status: Status, size': Option<int>)
    requires attrs != null && attrs.next != null && attrs.prev != null ==> List.IsRing(attrs, elems)
    ensures status == (if attrs == null || size.None? then InvalidArg else NoError)
    ensures status == InvalidArg ==> size' == size
    ensures status == NoError ==>
      size' == Some(if attrs.next == null || attrs.prev == null then 0 else |elems|)
  {
    if attrs == null || size.None? {
      return InvalidArg, size;
    }
    var _, count := List.Count(attrs, Some(0), elems);
    return NoError, count;
  }

  /**
   * One round of the destroy loop: unlink `pivot`, the first entry of the
   * ring, and return the entry that followed it.
   */
  method UnlinkFirst(attrs: List.Node, pivot: List.Node, ghost rest: seq<List.Node>) returns (next: List.Node)
    requires List.IsRing(attrs, rest) && rest != [] && pivot == rest[0]
    modifies attrs, set n | n in rest
    ensures List.IsRing(attrs, rest[1..]) && next == List.First(attrs, rest[1..])
    ensures pivot.next == null && pivot.prev == null
  {
    next := pivot.next;
    assert next == List.After(attrs, rest, 0) == List.First(attrs, rest[1..]);
    var _ := List.Remove(pivot, attrs, rest);
    List.WithoutFirst(rest);
  }

  /**
   * m3u8_attr_destroy: unlink every entry of the list; the head is left as an
   * empty list and each entry with null links (the code then frees it).
   */
  method Destroy(attrs: List.Node?, ghost elems: seq<List.Node>) returns (status: Status)
    requires attrs != null ==> List.IsRing(attrs, elems)
    modifies attrs, set n | n in elems
    ensures status == (if attrs == null then InvalidArg else NoError)
    ensures attrs != null ==> List.IsRing(attrs, []) && List.SelfLinked(attrs)
    ensures attrs != null ==> forall n :: n in elems ==> n.next == null && n.prev == null
  {
    if attrs == null {
      return InvalidArg;
    }
    var pivot := attrs.next;
    ghost var rest, done := elems, {};
    while pivot != attrs
      invariant List.IsRing(attrs, rest)
      invariant pivot == List.First(attrs, rest)
      invariant forall n :: n in rest ==> n in elems
      invariant forall n :: n in elems ==> n in done || n in rest
      invariant forall n :: n in done ==> n != attrs && n !in rest
      invariant forall n :: n in done ==> n.next == null && n.prev == null
      decreases |rest|
    {
      var next := UnlinkFirst(attrs, pivot, rest);
      done, rest := done + {pivot}, rest[1..];
      pivot := next;
    }
    return NoError;
  }
}
