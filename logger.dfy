/**
 * The log-handler registry of src/logger.c: a fixed table of 101 handler
 * slots, terminated by a sentinel slot (no name, no function), that
 * logger_add_log_handler and logger_remove_log_handler update in place, and
 * the log attribute that logger_set_log_attribute sets once.
 *
 * The C code keeps both in static variables; here they are the fields of a
 * Registry object. The operations are specified by functions on the slot
 * sequence (Added, Removed), and the lemmas say what those do to the
 * registered handlers: the live slots in front of the sentinel.
 */
module Logger {
  import opened Wrappers

  /** The LOGGER_* status codes of src/logger.h. */
  datatype Status = NoError | ResourceAllocationProblem | HandlerLimitError | HandlerNotFound | AlreadyInitialized {
    function Code(): int {
      match this
      case NoError => 0x1000
      case ResourceAllocationProblem => 0x1001
      case HandlerLimitError => 0x1002
      case HandlerNotFound => 0x1003
      case AlreadyInitialized => 0x1004
    }
  }

  /** LOGGER_SET_MAX_HANDLERS: the most handlers the table can hold. */
  const MaxHandlers := 100

  /** The table has one slot more than it can hold handlers, for the sentinel. */
  const Slots := MaxHandlers + 1

  /** A handler function, known by identity: the two built-in writers, or one a caller supplies. */
  datatype HandlerFn = WriteStdout | WriteFile | External(id: nat)

  /** A slot of the table: a name and a function, either of which may be null (None). */
  datatype Handler = Handler(name: Option<string>, fn: Option<HandlerFn>)
  {
    /** Both null: the slot that ends the table. */
    predicate IsSentinel()
    {
      name.None? && fn.None?
    }

    /** Both set: a handler that is dispatched to. */
    predicate IsLive()
    {
      name.Some? && fn.Some?
    }
  }

  const Sentinel := Handler(None, None)

  /** The log file settings: the file path and the maximum line size. */
  datatype LogAttribute = LogAttribute(path: string, maxLineSize: int)

  /** The table as the program starts: the stdout writer, the file writer, then sentinels. */
  function Initial(): (s: seq<Handler>)
    ensures |s| == Slots
  {
    [Handler(Some("logger_write_stdout_handler"), Some(WriteStdout)),
     Handler(Some("logger_write_file_handler"), Some(WriteFile))]
    + seq(Slots - 2, _ => Sentinel)
  }

  /** The position of the first sentinel, or |s| when there is none. */
  function FirstSentinel(s: seq<Handler>): (k: nat)
    ensures k <= |s|
    ensures k < |s| ==> s[k].IsSentinel()
    ensures forall j :: 0 <= j < k ==> !s[j].IsSentinel()
  {
    if s == [] || s[0].IsSentinel() then 0 else 1 + FirstSentinel(s[1..])
  }

  /** The number of live slots at the front of the table: where the dispatch and the search stop. */
  function LiveCount(s: seq<Handler>): (n: nat)
    ensures n <= |s|
    ensures n < |s| ==> !s[n].IsLive()
    ensures forall j :: 0 <= j < n ==> s[j].IsLive()
  {
    if s == [] || !s[0].IsLive() then 0 else 1 + LiveCount(s[1..])
  }

  /** The registered handlers: the live slots in front of the first slot that is not live. */
  function Registered(s: seq<Handler>): seq<Handler>
  {
    s[..LiveCount(s)]
  }

  /** Every slot in front of the first sentinel is live: no half-null slot hides registered handlers. */
  predicate Tidy(s: seq<Handler>)
  {
    LiveCount(s) == FirstSentinel(s)
  }

  /** The position of the first registered handler named `name`, if any. */
  function FindName(s: seq<Handler>, name: string): (r: Option<nat>)
    ensures r.Some? ==> r.value < LiveCount(s) && s[r.value].name == Some(name)
    ensures r.Some? ==> forall j :: 0 <= j < r.value ==> s[j].name != Some(name)
    ensures r.None? ==> forall j :: 0 <= j < LiveCount(s) ==> s[j].name != Some(name)
  {
    if s == [] || !s[0].IsLive() then None
    else if s[0].name == Some(name) then Some(0)
    else match FindName(s[1..], name)
      case None => None
      case Some(i) => Some(i + 1)
  }

  /** The table after a successful add: `h` in the first sentinel's slot, a sentinel in the next. */
  function Added(s: seq<Handler>, h: Handler): (r: seq<Handler>)
    requires FirstSentinel(s) + 1 < |s|
    ensures |r| == |s|
  {
    var k := FirstSentinel(s);
    s[k + 1 := Sentinel][k := h]
  }

  /**
   * The table after a successful remove of the handler at i: the slots after
   * it, up to and including the first one that is not live, move one place
   * left, and that last place becomes a sentinel.
   */
  function Removed(s: seq<Handler>, i: nat): (r: seq<Handler>)
    requires i < LiveCount(s) < |s|
    ensures |r| == |s|
  {
    var t := LiveCount(s);
    s[..i] + s[i + 1..t + 1] + [Sentinel] + s[t + 1..]
  }

  /** The initial table is tidy, holds the two built-in writers, and has room for more. */
  lemma InitialRegistered()
    ensures Tidy(Initial()) && FirstSentinel(Initial()) == 2
    ensures Registered(Initial()) == Initial()[..2]
    ensures |Registered(Initial())| == 2
  {
    var s := Initial();
    assert s[2].IsSentinel() && !s[2].IsLive();
    assert s[0].IsLive() && s[1].IsLive();
  }

  /**
   * Adding a live handler to a tidy table registers it after the others,
   * changes no earlier slot, and keeps the table tidy and sentinel-terminated.
   */
  lemma {:induction false} AddRegisters(s: seq<Handler>, h: Handler)
    requires Tidy(s) && h.IsLive() && FirstSentinel(s) + 1 < |s|
    ensures Registered(Added(s, h)) == Registered(s) + [h]
    ensures |Registered(Added(s, h))| == |Registered(s)| + 1
    ensures Tidy(Added(s, h)) && FirstSentinel(Added(s, h)) == FirstSentinel(s) + 1
  {
    var k := FirstSentinel(s);
    var r := Added(s, h);
    assert r[k + 1].IsSentinel() && !r[k + 1].IsLive();
    assert forall j :: 0 <= j < k ==> r[j] == s[j];
    assert r[k] == h;
    LiveCountIs(r, k + 1);
    FirstSentinelIs(r, k + 1);
    assert r[..k + 1] == s[..k] + [h];
  }

  /**
   * Removing the handler at i deletes exactly that handler from the
   * registered ones, keeps the others in order, leaves a sentinel in the
   * table, and keeps a tidy table tidy.
   */
  lemma {:induction false} RemoveUnregisters(s: seq<Handler>, i: nat)
    requires i < LiveCount(s) < |s|
    ensures Registered(Removed(s, i)) == Registered(s)[..i] + Registered(s)[i + 1..]
    ensures |Registered(Removed(s, i))| == |Registered(s)| - 1
    ensures FirstSentinel(Removed(s, i)) <= LiveCount(s)
    ensures Tidy(s) ==> Tidy(Removed(s, i))
  {
    var t := LiveCount(s);
    var r := Removed(s, i);
    assert forall j :: 0 <= j < i ==> r[j] == s[j];
    assert forall j :: i <= j < t ==> r[j] == s[j + 1];
    assert r[t] == Sentinel;
    LiveCountIs(r, t - 1);
    assert r[..t - 1] == s[..i] + s[i + 1..t];
    if Tidy(s) {
      assert s[t].IsSentinel();
      assert r[t - 1] == s[t];
      FirstSentinelIs(r, t - 1);
    }
  }

  /**
   * The table partway through the shift loop of a remove at i, once the
   * slots i..n-1 have each taken the next slot's content.
   */
  ghost function Shifted(s: seq<Handler>, i: nat, n: nat): seq<Handler>
    requires i <= n < |s|
  {
    s[..i] + s[i + 1..n + 1] + s[n..]
  }

  /** Before the shift nothing has moved. */
  lemma ShiftedStart(s: seq<Handler>, i: nat)
    requires i < |s|
    ensures Shifted(s, i, i) == s
  {
  }

  /** Slot n still holds its own content, and moving the next one into it is one more step of the shift. */
  lemma ShiftedStep(s: seq<Handler>, i: nat, n: nat)
    requires i <= n < |s|
    ensures Shifted(s, i, n)[n] == s[n]
    ensures n + 1 < |s| ==> Shifted(s, i, n)[n + 1] == s[n + 1]
    ensures n + 1 < |s| ==> Shifted(s, i, n)[n := s[n + 1]] == Shifted(s, i, n + 1)
  {
    var a := Shifted(s, i, n);
    assert |s[..i] + s[i + 1..n + 1]| == n;
    if n + 1 < |s| {
      var b := Shifted(s, i, n + 1);
      assert forall j :: 0 <= j < |s| ==> a[n := s[n + 1]][j] == b[j];
    }
  }

  /** The shift stopped at t, with a sentinel written there: the slots after i up to t moved left. */
  lemma ShiftedDone(s: seq<Handler>, i: nat, t: nat)
    requires i < t < |s|
    ensures Shifted(s, i, t)[t := Sentinel] == s[..i] + s[i + 1..t + 1] + [Sentinel] + s[t + 1..]
  {
    var front := s[..i] + s[i + 1..t + 1];
    assert |front| == t;
    assert s[t..][0 := Sentinel] == [Sentinel] + s[t + 1..];
    assert (front + s[t..])[t := Sentinel] == front + s[t..][0 := Sentinel];
  }

  /** Adding a handler under a new name and then removing that name gives back the registered handlers. */
  lemma AddThenRemove(s: seq<Handler>, h: Handler)
    requires Tidy(s) && h.IsLive() && FirstSentinel(s) + 1 < |s|
    requires FindName(s, h.name.value).None?
    ensures LiveCount(Added(s, h)) == LiveCount(s) + 1 < |s|
    ensures FindName(Added(s, h), h.name.value) == Some(LiveCount(s))
    ensures Registered(Removed(Added(s, h), LiveCount(s))) == Registered(s)
  {
    var k := LiveCount(s);
    var r := Added(s, h);
    AddRegisters(s, h);
    var before, after := Registered(s), Registered(r);
    assert |before| == k && after == before + [h];
    assert forall j :: 0 <= j < k ==> r[j] == s[j];
    FindNameIs(r, h.name.value, k);
    RemoveUnregisters(r, k);
    assert after[..k] == before && after[k + 1..] == [];
  }

  /** LiveCount is n when the first n slots are live and slot n is not. */
  lemma LiveCountIs(s: seq<Handler>, n: nat)
    requires n < |s| && !s[n].IsLive() && forall j :: 0 <= j < n ==> s[j].IsLive()
    ensures LiveCount(s) == n
  {
  }

  /** FirstSentinel is n when slot n is the first sentinel. */
  lemma FirstSentinelIs(s: seq<Handler>, n: nat)
    requires n < |s| && s[n].IsSentinel() && forall j :: 0 <= j < n ==> !s[j].IsSentinel()
    ensures FirstSentinel(s) == n
  {
  }

  /** FindName is n when slot n is the first registered one with that name. */
  lemma FindNameIs(s: seq<Handler>, name: string, n: nat)
    requires n < LiveCount(s) && s[n].name == Some(name)
    requires forall j :: 0 <= j < n ==> s[j].name != Some(name)
    ensures FindName(s, name) == Some(n)
  {
  }

  /** The logger's process-wide state: the handler table and the log attribute. */
  class Registry {
    const handlers: array<Handler>
    var attribute: Option<LogAttribute>

    /** The table has its fixed size and a sentinel somewhere in it. */
    ghost predicate Valid()
      reads this, handlers
    {
      handlers.Length == Slots && FirstSentinel(handlers[..]) < Slots
    }

    /** The state as the program starts: the initial table and no log attribute. */
    constructor ()
      ensures Valid() && fresh(handlers)
      ensures handlers[..] == Initial() && attribute == None
    {
      var table := Initial();
      handlers := new Handler[Slots](i requires 0 <= i < Slots => table[i]);
      attribute := None;
      new;
      assert handlers[..] == table;
      InitialRegistered();
    }

    /**
     * logger_add_log_handler: put `h` in the first sentinel's slot and move
     * the sentinel one slot on. Refused, with the table untouched, when there
     * is no sentinel or it is at MaxHandlers or beyond.
     */
    method Add(h: Handler) returns (status: Status)
      requires handlers.Length == Slots
      modifies handlers
      ensures status == (if FirstSentinel(old(handlers[..])) >= MaxHandlers then HandlerLimitError else NoError)
      ensures status == HandlerLimitError ==> handlers[..] == old(handlers[..])
      ensures status == NoError ==> handlers[..] == Added(old(handlers[..]), h) && Valid()
    {
      var sentIndex := -1;
      var i := 0;
      while i < handlers.Length
        invariant 0 <= i <= handlers.Length
        invariant sentIndex == -1 && forall j :: 0 <= j < i ==> !handlers[j].IsSentinel()
      {
        if handlers[i].IsSentinel() {
          sentIndex := i;
          break;
        }
        i := i + 1;
      }
      if sentIndex == -1 || sentIndex >= MaxHandlers {
        return HandlerLimitError;
      }
      FirstSentinelIs(handlers[..], sentIndex);
      handlers[sentIndex + 1] := handlers[sentIndex];
      handlers[sentIndex] := h;
      status := NoError;
      assert handlers[sentIndex + 1].IsSentinel();
      assert handlers[..] == Added(old(handlers[..]), h);
      assert FirstSentinel(handlers[..]) <= sentIndex + 1;
    }

    /**
     * The search of logger_remove_log_handler: walk the registered handlers
     * and stop at the first one named `name`; -1 when none is.
     */
    method Find(name: string) returns (index: int)
      requires Valid()
      ensures index == -1 <==> FindName(handlers[..], name).None?
      ensures index != -1 ==> index == FindName(handlers[..], name).value
    {
      ghost var s := handlers[..];
      ghost var t := LiveCount(s);
      var n := 0;
      while handlers[n].IsLive()
        invariant 0 <= n <= t
        invariant forall j :: 0 <= j < n ==> s[j].name != Some(name)
        decreases t - n
      {
        if handlers[n].name.value == name {
          FindNameIs(s, name, n);
          return n;
        }
        n := n + 1;
      }
      return -1;
    }

    /**
     * The shift of logger_remove_log_handler: move every registered handler
     * after slot i one slot left, then clear the slot the last one left.
     */
    method Unlink(i: nat)
      requires Valid() && i < LiveCount(handlers[..])
      modifies handlers
      ensures Valid()
      ensures handlers[..] == Removed(old(handlers[..]), i)
    {
      ghost var s := handlers[..];
      ghost var t := LiveCount(s);
      var n := i;
      ShiftedStart(s, i);
      while handlers[n].IsLive()
        invariant i <= n <= t < Slots == |s| == handlers.Length
        invariant handlers[..] == Shifted(s, i, n)
        decreases t - n
      {
        ShiftedStep(s, i, n);
        assert handlers[n] == s[n];
        assert n < t;
        assert handlers[n + 1] == s[n + 1];
        handlers[n] := handlers[n + 1];
        assert handlers[..] == Shifted(s, i, n)[n := s[n + 1]];
        n := n + 1;
      }
      ShiftedStep(s, i, n);
      handlers[n] := Sentinel;
      ShiftedDone(s, i, t);
      RemoveUnregisters(s, i);
    }

    /**
     * logger_remove_log_handler: delete the first registered handler named
     * `name`, shifting the handlers after it one slot left. Refused, with the
     * table untouched, when no registered handler has that name.
     */
    method Remove(name: string) returns (status: Status)
      requires Valid()
      modifies handlers
      ensures Valid()
      ensures status == (if FindName(old(handlers[..]), name).None? then HandlerNotFound else NoError)
      ensures status == HandlerNotFound ==> handlers[..] == old(handlers[..])
      ensures status == NoError ==> handlers[..] == Removed(old(handlers[..]), FindName(old(handlers[..]), name).value)
    {
      var foundIndex := Find(name);
      if foundIndex == -1 {
        return HandlerNotFound;
      }
      Unlink(foundIndex);
      return NoError;
    }

    /**
     * logger_set_log_attribute: store the log attribute, once. Any later call
     * is refused and leaves the stored attribute as it is.
     */
    method SetLogAttribute(attr: LogAttribute) returns (status: Status)
      modifies this
      ensures status == (if old(attribute).Some? then AlreadyInitialized else NoError)
      ensures attribute == (if old(attribute).Some? then old(attribute) else Some(attr))
    {
      if attribute.Some? {
        return AlreadyInitialized;
      }
      attribute := Some(attr);
      return NoError;
    }
  }
}
