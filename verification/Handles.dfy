/**
 * Directory handles under concurrency (src/fs/fuse.rs): `create_dir_handle` takes a number from an
 * atomic counter and inserts under the lock in a separate step; other threads run in between.
 */
module Handles {
  import opened Bytes
  import opened Dirents

  type Snapshot = seq<Entry>

  datatype Pending = Pending(handle: nat, snapshot: Snapshot)

  /**
   * `next` and `table` are the fields of the file system; `pending` is what each thread holds between
   * its two steps. The rest only records the past: how many numbers were drawn, with which listing
   * each was drawn, and which were released while in the table.
   */
  datatype State = State(
    next: nat, table: map<nat, Snapshot>, pending: map<nat, Pending>,
    opens: nat, drawn: map<nat, Snapshot>, released: set<nat>)

  datatype Event =
    | FetchAdd(thread: nat, snapshot: Snapshot)
    | Insert(thread: nat)
    | Release(handle: nat)

  const INIT := State(1, map[], map[], 0, map[], {})

  /** A thread draws when it holds nothing and inserts when it holds something; anyone may release anything. */
  predicate Enabled(s: State, e: Event) {
    match e
    case FetchAdd(t, _) => t !in s.pending
    case Insert(t) => t in s.pending
    case Release(_) => true
  }

  function Step(s: State, e: Event): State
    requires Enabled(s, e)
  {
    match e
    case FetchAdd(t, snapshot) =>
      s.(next := Wrap64(s.next + 1), pending := s.pending[t := Pending(s.next, snapshot)],
         opens := s.opens + 1, drawn := s.drawn[s.next := snapshot])
    case Insert(t) =>
      s.(table := s.table[s.pending[t].handle := s.pending[t].snapshot], pending := s.pending - {t})
    case Release(h) =>
      s.(table := s.table - {h}, released := if h in s.table then s.released + {h} else s.released)
  }

  ghost predicate CanRun(s: State, es: seq<Event>)
    decreases |es|
  {
    es != [] ==> Enabled(s, es[0]) && CanRun(Step(s, es[0]), es[1..])
  }

  ghost function Run(s: State, es: seq<Event>): State
    requires CanRun(s, es)
    decreases |es|
  {
    if es == [] then s else Run(Step(s, es[0]), es[1..])
  }

  lemma {:induction false} RunAppend(s: State, es: seq<Event>, more: seq<Event>)
    requires CanRun(s, es) && CanRun(Run(s, es), more)
    ensures CanRun(s, es + more) && Run(s, es + more) == Run(Run(s, es), more)
    decreases |es|
  {
    if es == [] {
      assert es + more == more;
    } else {
      RunAppend(Step(s, es[0]), es[1..], more);
      assert (es + more)[1..] == es[1..] + more;
    }
  }

  /** One thread that opens a directory without being interrupted. */
  function OpenSteps(thread: nat, snapshot: Snapshot): seq<Event> {
    [FetchAdd(thread, snapshot), Insert(thread)]
  }

  lemma OpenRuns(s: State, thread: nat, snapshot: Snapshot, es: seq<Event>)
    requires s.pending == map[] && es == OpenSteps(thread, snapshot)
    ensures CanRun(s, es)
    ensures var t := Run(s, es);
            t.next == Wrap64(s.next + 1) && t.table == s.table[s.next := snapshot] && t.pending == map[]
  {
    var drawn := Step(s, FetchAdd(thread, snapshot));
    assert es[1..] == [Insert(thread)] && [Insert(thread)][1..] == [];
    assert drawn.pending - {thread} == map[];
    var t := Step(drawn, Insert(thread));
    assert CanRun(t, []) && Run(t, []) == t;
    assert CanRun(drawn, [Insert(thread)]) && Run(drawn, [Insert(thread)]) == t;
  }

  lemma ReleaseRuns(s: State, handle: nat)
    ensures CanRun(s, [Release(handle)]) && Run(s, [Release(handle)]) == Step(s, Release(handle))
  {
    assert [Release(handle)][1..] == [];
  }

  /** `get_dir_handle`: the listing of a live handle, or EBADF. */
  function Get(s: State, h: nat): Option<Snapshot> {
    if h in s.table then Some(s.table[h]) else None
  }

  // ------------------------------------------------------------------
  // The invariant of every interleaving
  // ------------------------------------------------------------------

  ghost predicate Inv(s: State) {
    && s.next == 1 + s.opens
    && (forall h :: h in s.drawn <==> 1 <= h < s.next)
    && s.table.Keys <= s.drawn.Keys && s.released <= s.drawn.Keys
    && s.released !! s.table.Keys
    && (forall h :: h in s.table ==> s.table[h] == s.drawn[h])
    && (forall t :: t in s.pending ==> Held(s, s.pending[t]))
    && (forall t, u :: t in s.pending && u in s.pending && s.pending[t].handle == s.pending[u].handle ==> t == u)
  }

  /** A number that a thread still holds: drawn, with its own listing, neither live nor released. */
  ghost predicate Held(s: State, p: Pending) {
    p.handle in s.drawn && s.drawn[p.handle] == p.snapshot && p.handle !in s.table && p.handle !in s.released
  }

  lemma FetchAddKeepsInv(s: State, e: Event)
    requires Inv(s) && e.FetchAdd? && Enabled(s, e) && s.next + 1 < TWO_64
    ensures Inv(Step(s, e))
  {
    var s' := Step(s, e);
    forall t | t in s'.pending ensures Held(s', s'.pending[t]) {
      if t != e.thread {
        assert s'.pending[t] == s.pending[t] && Held(s, s.pending[t]);
      }
    }
    forall t, u | t in s'.pending && u in s'.pending && s'.pending[t].handle == s'.pending[u].handle
      ensures t == u
    {
      assert t != e.thread ==> Held(s, s.pending[t]) && s.pending[t].handle != s.next;
      assert u != e.thread ==> Held(s, s.pending[u]) && s.pending[u].handle != s.next;
    }
  }

  lemma InsertKeepsInv(s: State, e: Event)
    requires Inv(s) && e.Insert? && Enabled(s, e)
    ensures Inv(Step(s, e))
  {
    var s' := Step(s, e);
    assert Held(s, s.pending[e.thread]);
    forall t | t in s'.pending ensures Held(s', s'.pending[t]) {
      assert Held(s, s.pending[t]) && s.pending[t].handle != s.pending[e.thread].handle;
    }
  }

  lemma ReleaseKeepsInv(s: State, e: Event)
    requires Inv(s) && e.Release?
    ensures Inv(Step(s, e))
  {
    var s' := Step(s, e);
    forall t | t in s'.pending ensures Held(s', s'.pending[t]) {
      assert Held(s, s.pending[t]);
    }
  }

  function OpenCount(es: seq<Event>): nat {
    if es == [] then 0 else (if es[0].FetchAdd? then 1 else 0) + OpenCount(es[1..])
  }

  /** The invariant holds in every interleaving that draws fewer than 2^64 - 1 numbers. */
  lemma {:induction false} RunsKeepInv(s: State, es: seq<Event>)
    requires Inv(s) && CanRun(s, es) && s.next + OpenCount(es) < TWO_64
    ensures Inv(Run(s, es)) && Run(s, es).opens == s.opens + OpenCount(es)
    ensures s.released <= Run(s, es).released
    decreases |es|
  {
    if es != [] {
      match es[0] {
        case FetchAdd(_, _) => FetchAddKeepsInv(s, es[0]);
        case Insert(_) => InsertKeepsInv(s, es[0]);
        case Release(_) => ReleaseKeepsInv(s, es[0]);
      }
      RunsKeepInv(Step(s, es[0]), es[1..]);
    }
  }

  /**
   * In every interleaving from the start: live and in-flight handles are below the counter and all
   * different, and a live handle yields exactly the listing its opener took.
   */
  lemma HandlesAreSafe(es: seq<Event>)
    requires CanRun(INIT, es) && OpenCount(es) < TWO_64 - 1
    ensures var s := Run(INIT, es);
            && (forall h :: h in s.table ==> 1 <= h < s.next && h in s.drawn && Get(s, h) == Some(s.drawn[h]))
            && (forall t :: t in s.pending ==> 1 <= s.pending[t].handle < s.next && s.pending[t].handle !in s.table)
            && (forall t, u :: t in s.pending && u in s.pending && t != u ==>
                  s.pending[t].handle != s.pending[u].handle)
  {
    assert Inv(INIT);
    RunsKeepInv(INIT, es);
    var s := Run(INIT, es);
    forall t | t in s.pending ensures 1 <= s.pending[t].handle < s.next && s.pending[t].handle !in s.table {
      assert Held(s, s.pending[t]);
    }
  }

  /** A handle released while live answers EBADF ever after, whatever the threads do next. */
  lemma ReleasedStaysDead(before: seq<Event>, h: nat, after: seq<Event>)
    requires CanRun(INIT, before) && h in Run(INIT, before).table
    requires CanRun(Step(Run(INIT, before), Release(h)), after)
    requires OpenCount(before) + OpenCount(after) < TWO_64 - 1
    ensures Get(Run(Step(Run(INIT, before), Release(h)), after), h) == None
  {
    assert Inv(INIT);
    RunsKeepInv(INIT, before);
    var s := Run(INIT, before);
    ReleaseKeepsInv(s, Release(h));
    RunsKeepInv(Step(s, Release(h)), after);
  }

  /** A live handle keeps its listing until someone releases it. */
  lemma {:induction false} LiveUntilReleased(s: State, es: seq<Event>, h: nat)
    requires Inv(s) && CanRun(s, es) && s.next + OpenCount(es) < TWO_64
    requires h in s.table && Release(h) !in es
    ensures Get(Run(s, es), h) == Get(s, h)
    decreases |es|
  {
    if es != [] {
      match es[0] {
        case FetchAdd(_, _) => FetchAddKeepsInv(s, es[0]);
        case Insert(t) => InsertKeepsInv(s, es[0]); assert Held(s, s.pending[t]);
        case Release(_) => ReleaseKeepsInv(s, es[0]);
      }
      LiveUntilReleased(Step(s, es[0]), es[1..], h);
    }
  }

  // ------------------------------------------------------------------
  // Without a bound on the number of opens
  // ------------------------------------------------------------------

  /** The counter after any run: it has wrapped as often as it must. */
  lemma {:induction false} CounterValue(s: State, es: seq<Event>)
    requires CanRun(s, es) && s.next == (1 + s.opens) % TWO_64
    ensures Run(s, es).next == (1 + Run(s, es).opens) % TWO_64
    decreases |es|
  {
    if es != [] {
      if es[0].FetchAdd? {
        WrapNext(1 + s.opens);
      }
      CounterValue(Step(s, es[0]), es[1..]);
    }
  }

  lemma WrapNext(n: nat)
    ensures Wrap64(n % TWO_64 + 1) == (n + 1) % TWO_64
  {
    var q, m := n / TWO_64, n % TWO_64;
    if m + 1 < TWO_64 {
      ModUnique(n + 1, TWO_64, q, m + 1);
    } else {
      ModUnique(n + 1, TWO_64, q + 1, 0);
    }
  }

  /**
   * The exact bound: in any two runs, two opens draw the same number exactly when the difference of
   * their positions is a multiple of 2^64.
   */
  lemma NumbersRepeatExactly(first: seq<Event>, second: seq<Event>)
    requires CanRun(INIT, first) && CanRun(INIT, second)
    requires Run(INIT, first).opens <= Run(INIT, second).opens
    ensures Run(INIT, first).next == Run(INIT, second).next <==>
            (Run(INIT, second).opens - Run(INIT, first).opens) % TWO_64 == 0
  {
    CounterValue(INIT, first);
    CounterValue(INIT, second);
    SameResidue(1 + Run(INIT, first).opens, 1 + Run(INIT, second).opens);
  }

  lemma SameResidue(a: nat, b: nat)
    requires a <= b
    ensures a % TWO_64 == b % TWO_64 <==> (b - a) % TWO_64 == 0
  {
    var q, r := a / TWO_64, a % TWO_64;
    var k, d := (b - a) / TWO_64, (b - a) % TWO_64;
    assert b == (q + k) * TWO_64 + (r + d);
    if r + d < TWO_64 {
      ModUnique(b, TWO_64, q + k, r + d);
    } else {
      ModUnique(b, TWO_64, q + k + 1, r + d - TWO_64);
    }
  }
}
