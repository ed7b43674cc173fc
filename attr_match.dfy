/**
 * The attribute pattern of src/attr.c, `([A-Z0-9_-]+)=("[^"]*"|[^,]+)`, and the
 * POSIX rule by which the code's regexec picks a match: the leftmost match,
 * and among those starting there the longest. IsMatch states what the pattern
 * accepts; MatchAt and NextMatch compute the leftmost-longest match by hand and
 * are proved to be exactly that.
 */
module AttrMatch {
  import opened Wrappers

  /** One character of `[A-Z0-9_-]`. */
  predicate IsKeyChar(c: char)
  {
    ('A' <= c <= 'Z') || ('0' <= c <= '9') || c == '_' || c == '-'
  }

  /** s[p..k] is a non-empty run of key characters: `[A-Z0-9_-]+`. */
  ghost predicate KeySpan(s: string, p: int, k: int)
  {
    0 <= p < k <= |s| && forall j :: p <= j < k ==> IsKeyChar(s[j])
  }

  /** s[v..e] is a quoted value: `"[^"]*"`. */
  ghost predicate QuotedSpan(s: string, v: int, e: int)
  {
    0 <= v && v + 2 <= e <= |s| && s[v] == '"' && s[e - 1] == '"'
    && forall j :: v < j < e - 1 ==> s[j] != '"'
  }

  /** s[v..e] is an unquoted value: `[^,]+`. */
  ghost predicate UnquotedSpan(s: string, v: int, e: int)
  {
    0 <= v < e <= |s| && forall j :: v <= j < e ==> s[j] != ','
  }

  /** s[p..e] matches the attribute pattern, with key s[p..k], `=` at k and value s[k + 1..e]. */
  ghost predicate IsMatch(s: string, p: int, k: int, e: int)
  {
    KeySpan(s, p, k) && k < |s| && s[k] == '='
    && (QuotedSpan(s, k + 1, e) || UnquotedSpan(s, k + 1, e))
  }

  /** A match: key s[start..keyEnd], `=` at keyEnd, value s[keyEnd + 1..end]. */
  datatype Match = Match(start: nat, keyEnd: nat, end: nat)
  {
    /** The offsets are in order and within `s`, with a non-empty key and a non-empty value. */
    predicate Within(s: string)
    {
      start < keyEnd && keyEnd + 1 < end <= |s|
    }

    /** The match's three offsets are those of a match of the pattern in `s`. */
    ghost predicate In(s: string)
    {
      IsMatch(s, start, keyEnd, end)
    }
  }

  /** The end of the run of key characters that starts at p. */
  function KeyEnd(s: string, p: nat): (k: nat)
    requires p <= |s|
    ensures p <= k <= |s|
    ensures forall j :: p <= j < k ==> IsKeyChar(s[j])
    ensures k == |s| || !IsKeyChar(s[k])
    decreases |s| - p
  {
    if p < |s| && IsKeyChar(s[p]) then KeyEnd(s, p + 1) else p
  }

  /** The end of the run of non-comma characters that starts at v. */
  function RunEnd(s: string, v: nat): (e: nat)
    requires v <= |s|
    ensures v <= e <= |s|
    ensures forall j :: v <= j < e ==> s[j] != ','
    ensures e == |s| || s[e] == ','
    decreases |s| - v
  {
    if v < |s| && s[v] != ',' then RunEnd(s, v + 1) else v
  }

  /** The first position at or after `from` that holds `c`, if any. */
  function FindChar(s: string, c: char, from: nat): (r: Option<nat>)
    requires from <= |s|
    ensures r.Some? ==> from <= r.value < |s| && s[r.value] == c
    ensures r.Some? ==> forall j :: from <= j < r.value ==> s[j] != c
    ensures r.None? ==> forall j :: from <= j < |s| ==> s[j] != c
    decreases |s| - from
  {
    if from == |s| then None
    else if s[from] == c then Some(from)
    else FindChar(s, c, from + 1)
  }

  /** The end of the quoted value that starts at v, or v itself when there is none. */
  function QuotedEnd(s: string, v: nat): (e: nat)
    requires v <= |s|
    ensures e == v || QuotedSpan(s, v, e)
    ensures forall e' :: QuotedSpan(s, v, e') ==> e' == e
  {
    if v < |s| && s[v] == '"' then
      match FindChar(s, '"', v + 1)
      case Some(q) => q + 1
      case None => v
    else v
  }

  /**
   * The longest match that starts at p, if any. The key ends where the run of
   * key characters ends; the value is the longer of the quoted and the
   * unquoted alternatives.
   */
  function MatchAt(s: string, p: nat): (r: Option<Match>)
    requires p <= |s|
    ensures r.Some? ==> r.value.start == p && r.value.Within(s)
  {
    var k := KeyEnd(s, p);
    if k == p || k == |s| || s[k] != '=' then
      None
    else
      var unquoted := RunEnd(s, k + 1);
      var quoted := QuotedEnd(s, k + 1);
      var e := if quoted < unquoted then unquoted else quoted;
      if e == k + 1 then None else Some(Match(p, k, e))
  }

  /**
   * MatchAt finds a match of the pattern at p exactly when there is one, and
   * then the one POSIX prefers: its key is the only possible one and no
   * value is longer.
   */
  lemma MatchAtCorrect(s: string, p: nat)
    requires p <= |s|
    ensures MatchAt(s, p).Some? ==> MatchAt(s, p).value.In(s)
    ensures MatchAt(s, p).Some? ==>
      forall k, e :: IsMatch(s, p, k, e) ==> k == MatchAt(s, p).value.keyEnd && e <= MatchAt(s, p).value.end
    ensures MatchAt(s, p).None? ==> forall k, e :: !IsMatch(s, p, k, e)
  {
  }

  /** The leftmost-longest match that starts at or after `from`: what regexec reports on s[from..]. */
  function NextMatch(s: string, from: nat): (r: Option<Match>)
    requires from <= |s|
    ensures r.Some? ==> from <= r.value.start && r.value.Within(s)
    decreases |s| - from
  {
    if from == |s| then None
    else
      match MatchAt(s, from)
      case Some(m) => Some(m)
      case None => NextMatch(s, from + 1)
  }

  /**
   * NextMatch is the match of the pattern that POSIX regexec reports: it is a
   * match, none starts earlier, none starting at the same place is longer,
   * and there is none at all when it finds none.
   */
  lemma {:induction false} NextMatchCorrect(s: string, from: nat)
    requires from <= |s|
    ensures NextMatch(s, from).Some? ==> NextMatch(s, from).value.In(s)
    ensures NextMatch(s, from).Some? ==>
      forall p, k, e :: from <= p < NextMatch(s, from).value.start ==> !IsMatch(s, p, k, e)
    ensures NextMatch(s, from).Some? ==> forall k, e ::
      IsMatch(s, NextMatch(s, from).value.start, k, e) ==> k == NextMatch(s, from).value.keyEnd && e <= NextMatch(s, from).value.end
    ensures NextMatch(s, from).None? ==> forall p, k, e :: from <= p ==> !IsMatch(s, p, k, e)
    decreases |s| - from
  {
    if from < |s| {
      MatchAtCorrect(s, from);
      match MatchAt(s, from)
      case Some(m) =>
        assert NextMatch(s, from) == Some(m);
      case None =>
        NextMatchCorrect(s, from + 1);
        assert NextMatch(s, from) == NextMatch(s, from + 1);
    }
  }
}
