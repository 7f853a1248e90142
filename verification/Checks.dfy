/** checks.c: running checks with prerequisites. */
module Checks {
  import opened Bytes

  datatype Status = UNCHECKED | PREREQ | PASSED | FAILED

  /** The check table: prerequisites, the two flags, and whether the body of the check finds a
      fault in the tree at hand. */
  datatype Table = Table(prereqs: seq<seq<nat>>, warn: seq<bool>, error: seq<bool>, fails: seq<bool>)

  predicate WellFormed(g: Table) {
    |g.warn| == |g.prereqs| && |g.error| == |g.prereqs| && |g.fails| == |g.prereqs| &&
    forall c, i | 0 <= c < |g.prereqs| && 0 <= i < |g.prereqs[c]| :: g.prereqs[c][i] < |g.prereqs|
  }

  /** rank shows that the prerequisites are acyclic. */
  predicate Ranked(g: Table, rank: seq<nat>) {
    WellFormed(g) && |rank| == |g.prereqs| &&
    forall c, i | 0 <= c < |g.prereqs| && 0 <= i < |g.prereqs[c]| :: rank[g.prereqs[c][i]] < rank[c]
  }

  /** status and inprogress of every check; which checks run_check was called on, which bodies
      ran, in order, and whether the assertion on inprogress failed. */
  datatype State = State(status: seq<Status>, busy: set<nat>, seen: set<nat>, ran: seq<nat>, tripped: bool)

  predicate Fits(g: Table, st: State) { |st.status| == |g.prereqs| }

  // ---- run_check ----

  /** run_check: the state afterwards and the result. */
  function Run(g: Table, rank: seq<nat>, st: State, c: nat): (r: (State, bool))
    requires Ranked(g, rank) && Fits(g, st) && c < |g.prereqs|
    ensures Fits(g, r.0)
    decreases rank[c], |g.prereqs[c]| + 1
  {
    var st0 := st.(seen := st.seen + {c}, tripped := st.tripped || c in st.busy);
    if st0.status[c] != UNCHECKED then Out(g, st0, c, false)
    else
      var (st1, e) := RunPrereqs(g, rank, st0.(busy := st0.busy + {c}), c, 0, false);
      if st1.status[c] != UNCHECKED then Out(g, st1, c, e)
      else Out(g, st1.(ran := st1.ran + [c], status := st1.status[c := if g.fails[c] then FAILED else PASSED]), c, e)
  }

  /** The label `out`. */
  function Out(g: Table, st: State, c: nat, e: bool): (r: (State, bool))
    requires WellFormed(g) && Fits(g, st) && c < |g.prereqs|
    ensures Fits(g, r.0)
  {
    (st.(busy := st.busy - {c}), e || (st.status[c] != PASSED && g.error[c]))
  }

  /** The loop over the prerequisites from the i-th on; once there is an error, the remaining
      ones are not run any more. */
  function RunPrereqs(g: Table, rank: seq<nat>, st: State, c: nat, i: nat, e: bool): (r: (State, bool))
    requires Ranked(g, rank) && Fits(g, st) && c < |g.prereqs| && i <= |g.prereqs[c]|
    ensures Fits(g, r.0)
    decreases rank[c], |g.prereqs[c]| - i
  {
    if i == |g.prereqs[c]| then (st, e)
    else
      var q := g.prereqs[c][i];
      var (st1, e1) := if e then (st, true) else Run(g, rank, st, q);
      RunPrereqs(g, rank, if st1.status[q] != PASSED then st1.(status := st1.status[c := PREREQ])
        else st1, c, i + 1, e1)
  }

  /** The loop of process_checks from the i-th check on. */
  function Process(g: Table, rank: seq<nat>, st: State, i: nat, e: bool): (r: (State, bool))
    requires Ranked(g, rank) && Fits(g, st) && i <= |g.prereqs|
    ensures Fits(g, r.0)
    decreases |g.prereqs| - i
  {
    if i == |g.prereqs| then (st, e)
    else if !e && (g.warn[i] || g.error[i]) then
      var (st1, e1) := Run(g, rank, st, i);
      Process(g, rank, st1, i + 1, e1)
    else Process(g, rank, st, i + 1, e)
  }

  function Fresh(g: Table): State { State(seq(|g.prereqs|, i => UNCHECKED), {}, {}, [], false) }

  // ---- what every step keeps ----

  predicate AllPassed(g: Table, st: State, c: nat)
    requires WellFormed(g) && Fits(g, st) && c < |g.prereqs|
  {
    forall i | 0 <= i < |g.prereqs[c]| :: st.status[g.prereqs[c][i]] == PASSED
  }

  predicate NoRepeats(s: seq<nat>) { forall i, j | 0 <= i < j < |s| :: s[i] != s[j] }

  /** The bodies in ran came in an order in which each had all its prerequisites before it, and
      the bodies of these had found nothing. */
  predicate InOrder(g: Table, ran: seq<nat>) {
    WellFormed(g) && forall i | 0 <= i < |ran| :: ran[i] < |g.prereqs| && After(g, ran[i], ran[..i])
  }

  predicate After(g: Table, c: nat, before: seq<nat>)
    requires WellFormed(g) && c < |g.prereqs|
  {
    forall q | q in g.prereqs[c] :: q in before && !g.fails[q]
  }

  /** A body has run iff its check passed or failed, and then all its prerequisites have
      passed and the verdict is that of the body; no body has run twice, and none before a body
      that it needs; the assertion held. */
  predicate Inv(g: Table, st: State) {
    WellFormed(g) && Fits(g, st) && !st.tripped && NoRepeats(st.ran) && InOrder(g, st.ran) &&
    (forall c | 0 <= c < |g.prereqs| :: Told(g, st, c))
  }

  lemma {:induction false} OrderGrows(g: Table, ran: seq<nat>, c: nat)
    requires InOrder(g, ran) && c < |g.prereqs| && After(g, c, ran)
    ensures InOrder(g, ran + [c])
  {
    var s := ran + [c];
    forall i | 0 <= i < |s| ensures s[i] < |g.prereqs| && After(g, s[i], s[..i]) {
      assert s[..i] == ran[..i];
      if i == |ran| {
        assert ran[..i] == ran;
      }
    }
  }

  /** With all prerequisites passed the body of c comes after theirs. */
  lemma {:induction false} PassedBefore(g: Table, st: State, c: nat)
    requires Inv(g, st) && c < |g.prereqs| && AllPassed(g, st, c)
    ensures After(g, c, st.ran)
  {
    forall q | q in g.prereqs[c] ensures q in st.ran && !g.fails[q] {
      var i :| 0 <= i < |g.prereqs[c]| && g.prereqs[c][i] == q;
      assert Told(g, st, q);
    }
  }

  predicate Told(g: Table, st: State, c: nat)
    requires WellFormed(g) && Fits(g, st) && c < |g.prereqs|
  {
    (c in st.ran <==> st.status[c] == PASSED || st.status[c] == FAILED) &&
    (c in st.ran ==> AllPassed(g, st, c) && (st.status[c] == FAILED <==> g.fails[c]))
  }

  /** An error-level check that is decided and has not passed. */
  predicate Bad(g: Table, st: State, c: nat)
    requires WellFormed(g) && Fits(g, st)
  {
    c < |g.prereqs| && g.error[c] && st.status[c] != PASSED && st.status[c] != UNCHECKED
  }

  /** From st to st': what was decided stays, nothing above the rank bound is touched, and the
      checks in progress are the same. */
  predicate Goes(g: Table, rank: seq<nat>, st: State, st': State, bound: nat) {
    Ranked(g, rank) && Fits(g, st) && Inv(g, st') && st'.busy == st.busy && st.seen <= st'.seen &&
    forall v | 0 <= v < |g.prereqs| ::
      (st.status[v] != UNCHECKED ==> st'.status[v] == st.status[v]) &&
        (rank[v] > bound ==> st'.status[v] == st.status[v])
  }

  /** The result of a call: an error iff one of the checks it visited is bad in the end. */
  predicate Reports(g: Table, st: State, st': State, e: bool) {
    WellFormed(g) && Fits(g, st') && st.seen <= st'.seen &&
    (e ==> exists v :: v in st'.seen && Bad(g, st', v)) &&
    (forall v | v in st'.seen && v !in st.seen :: v < |g.prereqs| && st'.status[v] != UNCHECKED &&
      (!e ==> !Bad(g, st', v)))
  }

  /** The checks in progress are above c. */
  predicate Above(g: Table, rank: seq<nat>, st: State, c: nat) {
    Ranked(g, rank) && c < |g.prereqs| && forall b | b in st.busy :: b < |g.prereqs| && rank[b] > rank[c]
  }

  lemma {:induction false} RunIs(g: Table, rank: seq<nat>, st: State, c: nat)
    requires Inv(g, st) && Above(g, rank, st, c)
    ensures var (st', e) := Run(g, rank, st, c);
            Goes(g, rank, st, st', rank[c]) && Reports(g, st, st', e) && st'.status[c] != UNCHECKED &&
              c in st'.seen && (!e ==> !Bad(g, st', c))
    decreases rank[c], |g.prereqs[c]| + 1
  {
    assert c !in st.busy;
    InvSame(g, st, Out(g, st.(seen := st.seen + {c}), c, false).0);
    if st.status[c] == UNCHECKED {
      var stb := st.(seen := st.seen + {c}, busy := st.busy + {c});
      InvSame(g, st, stb);
      PrereqsIs(g, rank, stb, c, 0, false);
      var (st1, e) := RunPrereqs(g, rank, stb, c, 0, false);
      Finished(g, rank, st, stb, st1, e, c);
    }
  }

  lemma {:induction false} InvSame(g: Table, st: State, st': State)
    requires Inv(g, st) && st'.status == st.status && st'.ran == st.ran && !st'.tripped
    ensures Inv(g, st')
  {
    forall c | 0 <= c < |g.prereqs| ensures Told(g, st', c) {
      assert Told(g, st, c);
      assert AllPassed(g, st, c) == AllPassed(g, st', c);
    }
  }

  /** The end of run_check, after the prerequisites. */
  lemma {:induction false} Finished(g: Table, rank: seq<nat>, st: State, stb: State, st1: State, e: bool, c: nat)
    requires Inv(g, st) && Above(g, rank, st, c) && st.status[c] == UNCHECKED
    requires stb == st.(seen := st.seen + {c}, busy := st.busy + {c}) &&
             PrereqsDone(g, rank, stb, st1, c, |g.prereqs[c]|, e)
    ensures var st2 := if st1.status[c] != UNCHECKED then st1 else
              st1.(ran := st1.ran + [c], status := st1.status[c := if g.fails[c] then FAILED else PASSED]);
            var (st', e') := Out(g, st2, c, e);
            Goes(g, rank, st, st', rank[c]) && Reports(g, st, st', e') && st'.status[c] != UNCHECKED &&
              c in st'.seen && (!e' ==> !Bad(g, st', c))
  {
    var st2 := if st1.status[c] != UNCHECKED then st1 else
      st1.(ran := st1.ran + [c], status := st1.status[c := if g.fails[c] then FAILED else PASSED]);
    var (st', e') := Out(g, st2, c, e);
    assert c !in st1.ran by { assert Told(g, st1, c); }
    forall v | 0 <= v < |g.prereqs| ensures Told(g, st', v) {
      assert Told(g, st1, v);
      if v != c && v in st1.ran && st1.status[c] == UNCHECKED {
        assert forall i | 0 <= i < |g.prereqs[v]| :: g.prereqs[v][i] != c;
      }
    }
    assert NoRepeats(st'.ran);
    if st1.status[c] == UNCHECKED {
      PassedBefore(g, st1, c);
      OrderGrows(g, st1.ran, c);
    }
    if e {
      var v :| v in st1.seen && Bad(g, st1, v);
      assert v in st'.seen && Bad(g, st', v);
    } else if e' {
      assert c in st'.seen && Bad(g, st', c);
    }
    forall v | v in st'.seen && v !in st.seen ensures v < |g.prereqs| && st'.status[v] != UNCHECKED &&
      (!e' ==> !Bad(g, st', v)) {
      assert v != c ==> v !in stb.seen && st1.status[v] != UNCHECKED && (!e ==> !Bad(g, st1, v));
    }
  }

  /** After the first i prerequisites of c, from stb to st. */
  predicate PrereqsDone(g: Table, rank: seq<nat>, stb: State, st: State, c: nat, i: nat, e: bool) {
    Ranked(g, rank) && c < |g.prereqs| && i <= |g.prereqs[c]| && Fits(g, stb) && Inv(g, st) && st.busy == stb.busy &&
      stb.seen <= st.seen &&
    stb.status[c] == UNCHECKED && (st.status[c] == UNCHECKED || st.status[c] == PREREQ) &&
    (st.status[c] == UNCHECKED ==> forall j | 0 <= j < i :: st.status[g.prereqs[c][j]] == PASSED) &&
    (forall v | 0 <= v < |g.prereqs| && v != c ::
       (stb.status[v] != UNCHECKED ==> st.status[v] == stb.status[v]) &&
         (rank[v] >= rank[c] ==> st.status[v] == stb.status[v])) &&
    (e ==> exists v :: v in st.seen && Bad(g, st, v)) &&
    (forall v | v in st.seen && v !in stb.seen :: v < |g.prereqs| && st.status[v] != UNCHECKED &&
      (!e ==> !Bad(g, st, v)))
  }

  lemma {:induction false} PrereqsIs(g: Table, rank: seq<nat>, st: State, c: nat, i: nat, e: bool)
    requires Inv(g, st) && Ranked(g, rank) && c < |g.prereqs| && i == 0 && !e && st.status[c] == UNCHECKED &&
             c in st.busy && c in st.seen
    requires forall b | b in st.busy :: b < |g.prereqs| && rank[b] >= rank[c]
    ensures var (st', e') := RunPrereqs(g, rank, st, c, i, e); PrereqsDone(g, rank, st, st', c, |g.prereqs[c]|, e')
    decreases rank[c], |g.prereqs[c]| + 1, 0
  {
    PrereqsFrom(g, rank, st, st, c, 0, false);
  }

  lemma {:induction false} PrereqsFrom(g: Table, rank: seq<nat>, stb: State, st: State, c: nat, i: nat, e: bool)
    requires PrereqsDone(g, rank, stb, st, c, i, e) && c in stb.busy && c in stb.seen
    requires forall b | b in stb.busy :: b < |g.prereqs| && rank[b] >= rank[c]
    ensures var (st', e') := RunPrereqs(g, rank, st, c, i, e); PrereqsDone(g, rank, stb, st', c, |g.prereqs[c]|, e')
    decreases rank[c], |g.prereqs[c]| - i
  {
    if i < |g.prereqs[c]| {
      var q := g.prereqs[c][i];
      var (st1, e1) := if e then (st, true) else Run(g, rank, st, q);
      if !e {
        RunIs(g, rank, st, q);
      }
      OnePrereq(g, rank, stb, st, st1, c, i, e, e1);
      PrereqsFrom(g, rank, stb, if st1.status[q] != PASSED then st1.(status := st1.status[c := PREREQ])
        else st1, c, i + 1, e1);
    }
  }

  lemma {:induction false} OnePrereq(g: Table, rank: seq<nat>, stb: State, st: State, st1: State, c: nat, i: nat,
    e: bool, e1: bool)
    requires PrereqsDone(g, rank, stb, st, c, i, e) && c in stb.busy && c in stb.seen && i < |g.prereqs[c]|
    requires var q := g.prereqs[c][i];
             if e then st1 == st && e1
             else Goes(g, rank, st, st1, rank[q]) && Reports(g, st, st1, e1) && st1.status[q] != UNCHECKED
    ensures var q := g.prereqs[c][i];
            PrereqsDone(g, rank, stb, if st1.status[q] != PASSED then st1.(status := st1.status[c := PREREQ])
              else st1, c, i + 1, e1)
  {
    var q := g.prereqs[c][i];
    var st2 := if st1.status[q] != PASSED then st1.(status := st1.status[c := PREREQ]) else st1;
    assert rank[q] < rank[c];
    assert Told(g, st1, c);
    forall v | 0 <= v < |g.prereqs| ensures Told(g, st2, v) {
      assert Told(g, st1, v);
      if v != c && v in st1.ran {
        assert AllPassed(g, st1, v);
        assert forall j | 0 <= j < |g.prereqs[v]| :: st1.status[g.prereqs[v][j]] == PASSED;
      }
    }
    if e1 {
      var v :| v in st1.seen && Bad(g, st1, v);
      assert v in st2.seen && Bad(g, st2, v);
    }
    forall v | v in st2.seen && v !in stb.seen ensures v < |g.prereqs| && st2.status[v] != UNCHECKED &&
      (!e1 ==> !Bad(g, st2, v)) {
      assert v != c;
      if v in st.seen {
        assert st.status[v] != UNCHECKED && (!e ==> !Bad(g, st, v));
      } else {
        assert st1.status[v] != UNCHECKED && (!e1 ==> !Bad(g, st1, v));
      }
    }
  }

  // ---- which checks are run, and what they say ----

  /** v is c, or a prerequisite of c, directly or through others. */
  predicate Needs(g: Table, rank: seq<nat>, c: nat, v: nat)
    requires Ranked(g, rank) && c < |g.prereqs|
    decreases rank[c]
  {
    c == v || exists i :: 0 <= i < |g.prereqs[c]| && Needs(g, rank, g.prereqs[c][i], v)
  }

  /** Nothing that c needs finds a fault. */
  predicate Clean(g: Table, rank: seq<nat>, c: nat)
    requires Ranked(g, rank) && c < |g.prereqs|
  {
    forall v | 0 <= v < |g.prereqs| :: Needs(g, rank, c, v) ==> !g.fails[v]
  }

  /** What a check has to say: it is held up by a prerequisite that is not clean, or has the
      verdict of its own body. */
  predicate Verdict(g: Table, rank: seq<nat>, c: nat, v: Status)
    requires Ranked(g, rank) && c < |g.prereqs|
  {
    (v == PREREQ <==> exists q :: q in g.prereqs[c] && q < |g.prereqs| && !Clean(g, rank, q)) &&
    (v == FAILED <==> g.fails[c] && forall q | q in g.prereqs[c] :: q < |g.prereqs| && Clean(g, rank, q)) &&
    (v == PASSED <==> Clean(g, rank, c))
  }

  ghost predicate IsDecided(g: Table, rank: seq<nat>, c: nat, v: Status, r: bool)
    requires Ranked(g, rank) && c < |g.prereqs|
  {
    forall z :: Unseal(z) ==> r == Verdict(g, rank, c, v)
  }

  /** Verdict, sealed. */
  ghost predicate Decided(g: Table, rank: seq<nat>, c: nat, v: Status)
    requires Ranked(g, rank) && c < |g.prereqs|
  {
    assert IsDecided(g, rank, c, v, Verdict(g, rank, c, v));
    var r :| IsDecided(g, rank, c, v, r);
    r
  }

  lemma {:induction false} DecidedDef(g: Table, rank: seq<nat>, c: nat, v: Status)
    requires Ranked(g, rank) && c < |g.prereqs|
    ensures Decided(g, rank, c, v) == Verdict(g, rank, c, v)
  {
    assert Unseal(0);
  }

  /** The first n checks of the table that are enabled need v. */
  predicate Wanted(g: Table, rank: seq<nat>, n: nat, v: nat)
    requires Ranked(g, rank) && n <= |g.prereqs|
  {
    exists c :: 0 <= c < n && (g.warn[c] || g.error[c]) && Needs(g, rank, c, v)
  }

  lemma {:induction false} CleanIs(g: Table, rank: seq<nat>, c: nat)
    requires Ranked(g, rank) && c < |g.prereqs|
    ensures Clean(g, rank, c) <==>
            !g.fails[c] && forall i | 0 <= i < |g.prereqs[c]| :: Clean(g, rank, g.prereqs[c][i])
  {
    assert Needs(g, rank, c, c);
    if Clean(g, rank, c) {
      forall i, v | 0 <= i < |g.prereqs[c]| && 0 <= v < |g.prereqs| && Needs(g, rank, g.prereqs[c][i], v)
        ensures !g.fails[v]
      {
        assert Needs(g, rank, c, v);
      }
    }
    if !g.fails[c] && forall i | 0 <= i < |g.prereqs[c]| :: Clean(g, rank, g.prereqs[c][i]) {
      forall v | 0 <= v < |g.prereqs| && Needs(g, rank, c, v) ensures !g.fails[v] {
        if v != c {
          var i :| 0 <= i < |g.prereqs[c]| && Needs(g, rank, g.prereqs[c][i], v);
          assert Clean(g, rank, g.prereqs[c][i]);
        }
      }
    }
  }

  /** Statuses are right, the checks seen are those with a status and those in progress, and each
      that is seen and not in progress is seen with its prerequisites, as long as there is no
      error; of the bodies that ran, only the last may have found an error. */
  ghost predicate Right(g: Table, rank: seq<nat>, st: State, e: bool) {
    Ranked(g, rank) && Fits(g, st) &&
    (forall c | 0 <= c < |g.prereqs| ::
       st.status[c] != UNCHECKED ==> Decided(g, rank, c, st.status[c]) && c in st.seen) &&
    (!e ==> Closed(g, st)) && Silent(g, st.ran, e)
  }

  predicate Closed(g: Table, st: State) {
    WellFormed(g) && forall c, i | c in st.seen && c !in st.busy && c < |g.prereqs| && 0 <= i < |g.prereqs[c]| ::
      g.prereqs[c][i] in st.seen
  }

  /** A body of an error-level check that found a fault: none, or only the last one. */
  predicate Silent(g: Table, ran: seq<nat>, e: bool) {
    WellFormed(g) &&
    forall k | 0 <= k < |ran| - (if e then 1 else 0) ::
      ran[k] < |g.prereqs| && !(g.error[ran[k]] && g.fails[ran[k]])
  }

  /** What is newly seen is needed by c. */
  predicate SeesFor(g: Table, rank: seq<nat>, st: State, st': State, c: nat) {
    Ranked(g, rank) && c < |g.prereqs| && st.seen <= st'.seen &&
    forall v | v in st'.seen && v !in st.seen :: Needs(g, rank, c, v)
  }

  lemma {:induction false} RunRight(g: Table, rank: seq<nat>, st: State, c: nat)
    requires Inv(g, st) && Above(g, rank, st, c) && Right(g, rank, st, false)
    ensures var (st', e) := Run(g, rank, st, c);
            Right(g, rank, st', e) && SeesFor(g, rank, st, st', c) && (e ==> !Clean(g, rank, c))
    decreases rank[c], |g.prereqs[c]| + 1
  {
    RunIs(g, rank, st, c);
    CleanIs(g, rank, c);
    if st.status[c] != UNCHECKED {
      DecidedDef(g, rank, c, st.status[c]);
    } else {
      var stb := st.(seen := st.seen + {c}, busy := st.busy + {c});
      InvSame(g, st, stb);
      PrereqsIs(g, rank, stb, c, 0, false);
      HalfRightDef(g, rank, stb, stb, c, 0, false);
      PrereqsRight(g, rank, stb, stb, c, 0, false);
      var (st1, e) := RunPrereqs(g, rank, stb, c, 0, false);
      EndRight(g, rank, st, st1, c, e);
    }
  }

  ghost predicate HalfRightBody(g: Table, rank: seq<nat>, stb: State, st: State, c: nat, i: nat, e: bool) {
    Right(g, rank, st, e) && SeesFor(g, rank, stb, st, c) && i <= |g.prereqs[c]| &&
    (st.status[c] == UNCHECKED || st.status[c] == PREREQ) &&
    (st.status[c] == UNCHECKED ==> forall j | 0 <= j < i :: Clean(g, rank, g.prereqs[c][j])) &&
    (e ==> st.status[c] == PREREQ) && (!e ==> forall j | 0 <= j < i :: g.prereqs[c][j] in st.seen)
  }

  ghost predicate IsHalfRight(g: Table, rank: seq<nat>, stb: State, st: State, c: nat, i: nat, e: bool, r: bool) {
    forall z :: Unseal(z) ==> r == HalfRightBody(g, rank, stb, st, c, i, e)
  }

  /** After the first i prerequisites of c; sealed. */
  ghost predicate HalfRight(g: Table, rank: seq<nat>, stb: State, st: State, c: nat, i: nat, e: bool) {
    assert IsHalfRight(g, rank, stb, st, c, i, e, HalfRightBody(g, rank, stb, st, c, i, e));
    var r :| IsHalfRight(g, rank, stb, st, c, i, e, r);
    r
  }

  lemma {:induction false} HalfRightDef(g: Table, rank: seq<nat>, stb: State, st: State, c: nat, i: nat, e: bool)
    ensures HalfRight(g, rank, stb, st, c, i, e) == HalfRightBody(g, rank, stb, st, c, i, e)
  {
    assert Unseal(0);
  }

  lemma {:induction false} HalfRightNow(g: Table, rank: seq<nat>, stb: State, st: State, c: nat, i: nat, e: bool)
    requires HalfRight(g, rank, stb, st, c, i, e)
    ensures Right(g, rank, st, e)
  {
    HalfRightDef(g, rank, stb, st, c, i, e);
  }

  lemma {:induction false} PrereqsRight(g: Table, rank: seq<nat>, stb: State, st: State, c: nat, i: nat, e: bool)
    requires PrereqsDone(g, rank, stb, st, c, i, e) && c in stb.busy && c in stb.seen
    requires forall b | b in stb.busy :: b < |g.prereqs| && rank[b] >= rank[c]
    requires HalfRight(g, rank, stb, st, c, i, e)
    ensures var (st', e') := RunPrereqs(g, rank, st, c, i, e); HalfRight(g, rank, stb, st', c, |g.prereqs[c]|, e')
    decreases rank[c], |g.prereqs[c]| - i
  {
    if i < |g.prereqs[c]| {
      var q := g.prereqs[c][i];
      var (st1, e1) := if e then (st, true) else Run(g, rank, st, q);
      if !e {
        RunIs(g, rank, st, q);
        HalfRightNow(g, rank, stb, st, c, i, e);
        RunRight(g, rank, st, q);
      }
      OnePrereq(g, rank, stb, st, st1, c, i, e, e1);
      OneRight(g, rank, stb, st, st1, c, i, e, e1);
      PrereqsRight(g, rank, stb, if st1.status[q] != PASSED then st1.(status := st1.status[c := PREREQ])
        else st1, c, i + 1, e1);
    }
  }

  lemma {:induction false} OneRight(g: Table, rank: seq<nat>, stb: State, st: State, st1: State, c: nat, i: nat,
    e: bool, e1: bool)
    requires PrereqsDone(g, rank, stb, st, c, i, e) && HalfRight(g, rank, stb, st, c, i, e)
    requires c in stb.busy && c in stb.seen && i < |g.prereqs[c]|
    requires var q := g.prereqs[c][i];
             if e then st1 == st && e1
             else Goes(g, rank, st, st1, rank[q]) && st1.status[q] != UNCHECKED && q in st1.seen &&
                  Right(g, rank, st1, e1) && SeesFor(g, rank, st, st1, q) && (e1 ==> !Clean(g, rank, q))
    ensures var q := g.prereqs[c][i];
            HalfRight(g, rank, stb, if st1.status[q] != PASSED then st1.(status := st1.status[c := PREREQ])
              else st1, c, i + 1, e1)
  {
    var q := g.prereqs[c][i];
    var st2 := if st1.status[q] != PASSED then st1.(status := st1.status[c := PREREQ]) else st1;
    HalfRightDef(g, rank, stb, st, c, i, e);
    HalfRightDef(g, rank, stb, st2, c, i + 1, e1);
    assert rank[q] < rank[c];
    SeesMore(g, rank, stb, st, st1, c, q, e);
    if !e {
      HeldUp(g, rank, c, q);
      DecidedDef(g, rank, q, st1.status[q]);
      assert st1.status[c] == st.status[c];
    }
    assert c in st2.seen;
  }

  lemma {:induction false} SeesMore(g: Table, rank: seq<nat>, stb: State, st: State, st1: State, c: nat, q: nat,
    e: bool)
    requires SeesFor(g, rank, stb, st, c) && q in g.prereqs[c] && q < |g.prereqs|
    requires if e then st1 == st else SeesFor(g, rank, st, st1, q)
    ensures SeesFor(g, rank, stb, st1, c)
  {
    var i :| 0 <= i < |g.prereqs[c]| && g.prereqs[c][i] == q;
    forall v | v in st1.seen && v !in stb.seen ensures Needs(g, rank, c, v) {
      if v !in st.seen {
        assert Needs(g, rank, q, v);
      }
    }
  }

  /** A prerequisite that is not clean. */
  lemma {:induction false} HeldUp(g: Table, rank: seq<nat>, c: nat, q: nat)
    requires Ranked(g, rank) && c < |g.prereqs| && q in g.prereqs[c]
    ensures q < |g.prereqs| && (!Clean(g, rank, q) ==> Decided(g, rank, c, PREREQ))
  {
    var i :| 0 <= i < |g.prereqs[c]| && g.prereqs[c][i] == q;
    CleanIs(g, rank, c);
    DecidedDef(g, rank, c, PREREQ);
  }

  /** With clean prerequisites the body decides. */
  lemma {:induction false} OwnVerdict(g: Table, rank: seq<nat>, c: nat)
    requires Ranked(g, rank) && c < |g.prereqs|
    requires forall j | 0 <= j < |g.prereqs[c]| :: Clean(g, rank, g.prereqs[c][j])
    ensures Decided(g, rank, c, if g.fails[c] then FAILED else PASSED)
  {
    CleanIs(g, rank, c);
    DecidedDef(g, rank, c, if g.fails[c] then FAILED else PASSED);
  }

  lemma {:induction false} EndRight(g: Table, rank: seq<nat>, st: State, st1: State, c: nat, e: bool)
    requires Inv(g, st) && Above(g, rank, st, c) && Right(g, rank, st, false) && st.status[c] == UNCHECKED
    requires var stb := st.(seen := st.seen + {c}, busy := st.busy + {c});
             Fits(g, st1) && HalfRight(g, rank, stb, st1, c, |g.prereqs[c]|, e) && st1.busy == stb.busy
    ensures var st2 := if st1.status[c] != UNCHECKED then st1 else
              st1.(ran := st1.ran + [c], status := st1.status[c := if g.fails[c] then FAILED else PASSED]);
            var (st', e') := Out(g, st2, c, e);
            Right(g, rank, st', e') && SeesFor(g, rank, st, st', c) && (e' ==> !Clean(g, rank, c))
  {
    var st2 := if st1.status[c] != UNCHECKED then st1 else
      st1.(ran := st1.ran + [c], status := st1.status[c := if g.fails[c] then FAILED else PASSED]);
    var (st', e') := Out(g, st2, c, e);
    HalfRightDef(g, rank, st.(seen := st.seen + {c}, busy := st.busy + {c}), st1, c, |g.prereqs[c]|, e);
    assert Needs(g, rank, c, c);
    if st1.status[c] == UNCHECKED {
      OwnVerdict(g, rank, c);
    }
    DecidedDef(g, rank, c, st'.status[c]);
  }

  // ---- process_checks ----

  /** Between the top-level calls. */
  predicate Steady(g: Table, st: State, e: bool) {
    Inv(g, st) && st.busy == {} && (forall v | v in st.seen :: v < |g.prereqs| && st.status[v] != UNCHECKED) &&
    (e <==> exists v :: v in st.seen && Bad(g, st, v))
  }

  lemma {:induction false} StaysSteady(g: Table, rank: seq<nat>, st: State, c: nat)
    requires Ranked(g, rank) && Steady(g, st, false) && c < |g.prereqs|
    ensures var (st', e) := Run(g, rank, st, c); Steady(g, st', e)
  {
    RunIs(g, rank, st, c);
    var (st', e) := Run(g, rank, st, c);
    forall v | v in st'.seen ensures v < |g.prereqs| && st'.status[v] != UNCHECKED && (!e ==> !Bad(g, st', v)) {
      if v in st.seen {
        assert st.status[v] != UNCHECKED && !Bad(g, st, v);
      }
    }
  }

  /** Everything that a check seen needs has been seen. */
  lemma {:induction false} ClosedNeeds(g: Table, rank: seq<nat>, st: State, c: nat, v: nat)
    requires Ranked(g, rank) && Closed(g, st) && st.busy == {} && c in st.seen && c < |g.prereqs| &&
             Needs(g, rank, c, v)
    ensures v in st.seen
    decreases rank[c]
  {
    if c != v {
      var i :| 0 <= i < |g.prereqs[c]| && Needs(g, rank, g.prereqs[c][i], v);
      ClosedNeeds(g, rank, st, g.prereqs[c][i], v);
    }
  }

  /** The k-th check was the one that reported an error: nothing was seen but what enabled checks
      up to it need, and whatever those before it need was seen and was no error. */
  predicate StoppedAt(g: Table, rank: seq<nat>, st: State, k: nat) {
    Ranked(g, rank) && Fits(g, st) && k < |g.prereqs| && (g.warn[k] || g.error[k]) && k in st.seen &&
    (forall v | v in st.seen :: Wanted(g, rank, k + 1, v)) &&
    forall v | 0 <= v < |g.prereqs| :: Wanted(g, rank, k, v) ==> v in st.seen && !(g.error[v] && !Clean(g, rank, v))
  }

  ghost predicate ProgressBody(g: Table, rank: seq<nat>, st: State, i: nat, e: bool) {
    Right(g, rank, st, e) && Steady(g, st, e) && i <= |g.prereqs| &&
    (!e ==> forall v | 0 <= v < |g.prereqs| :: v in st.seen <==> Wanted(g, rank, i, v)) &&
    (e ==> exists k :: 0 <= k < i && StoppedAt(g, rank, st, k))
  }

  ghost predicate IsProgress(g: Table, rank: seq<nat>, st: State, i: nat, e: bool, r: bool) {
    forall z :: Unseal(z) ==> r == ProgressBody(g, rank, st, i, e)
  }

  /** Before the i-th check; sealed. */
  ghost predicate Progress(g: Table, rank: seq<nat>, st: State, i: nat, e: bool) {
    assert IsProgress(g, rank, st, i, e, ProgressBody(g, rank, st, i, e));
    var r :| IsProgress(g, rank, st, i, e, r);
    r
  }

  lemma {:induction false} ProgressDef(g: Table, rank: seq<nat>, st: State, i: nat, e: bool)
    ensures Progress(g, rank, st, i, e) == ProgressBody(g, rank, st, i, e)
  {
    assert Unseal(0);
  }

  lemma {:induction false} WantedMore(g: Table, rank: seq<nat>, i: nat, v: nat)
    requires Ranked(g, rank) && i < |g.prereqs|
    ensures Wanted(g, rank, i + 1, v) <==>
            Wanted(g, rank, i, v) || ((g.warn[i] || g.error[i]) && Needs(g, rank, i, v))
  {
    if c :| 0 <= c < i && (g.warn[c] || g.error[c]) && Needs(g, rank, c, v) {
      assert 0 <= c < i + 1;
    }
  }

  /** An enabled check after no error. */
  lemma {:induction false} EnabledRun(g: Table, rank: seq<nat>, st: State, i: nat)
    requires Ranked(g, rank) && Fits(g, st) && Progress(g, rank, st, i, false)
    requires i < |g.prereqs| && (g.warn[i] || g.error[i])
    ensures var (st1, e1) := Run(g, rank, st, i); Progress(g, rank, st1, i + 1, e1)
  {
    ProgressDef(g, rank, st, i, false);
    RunIs(g, rank, st, i);
    RunRight(g, rank, st, i);
    StaysSteady(g, rank, st, i);
    var (st1, e1) := Run(g, rank, st, i);
    ProgressDef(g, rank, st1, i + 1, e1);
    assert Needs(g, rank, i, i);
    forall v | 0 <= v < |g.prereqs| ensures v in st1.seen ==> Wanted(g, rank, i + 1, v) {
      WantedMore(g, rank, i, v);
    }
    if e1 {
      forall v | 0 <= v < |g.prereqs| && Wanted(g, rank, i, v)
        ensures v in st1.seen && !(g.error[v] && !Clean(g, rank, v))
      {
        assert v in st.seen && st.status[v] != UNCHECKED && !Bad(g, st, v);
        DecidedDef(g, rank, v, st.status[v]);
      }
      assert StoppedAt(g, rank, st1, i);
    } else {
      forall v | 0 <= v < |g.prereqs| && Wanted(g, rank, i + 1, v) ensures v in st1.seen {
        WantedMore(g, rank, i, v);
        if Needs(g, rank, i, v) {
          ClosedNeeds(g, rank, st1, i, v);
        }
      }
    }
  }

  /** A check that is not enabled, or any after an error. */
  lemma {:induction false} PassedOver(g: Table, rank: seq<nat>, st: State, i: nat, e: bool)
    requires Ranked(g, rank) && Progress(g, rank, st, i, e) && i < |g.prereqs| && (e || !(g.warn[i] || g.error[i]))
    ensures Progress(g, rank, st, i + 1, e)
  {
    ProgressDef(g, rank, st, i, e);
    ProgressDef(g, rank, st, i + 1, e);
    if !e {
      forall v | 0 <= v < |g.prereqs| ensures Wanted(g, rank, i + 1, v) == Wanted(g, rank, i, v) {
        WantedMore(g, rank, i, v);
      }
    }
  }

  lemma {:induction false} ProcessIs(g: Table, rank: seq<nat>, st: State, i: nat, e: bool)
    requires Ranked(g, rank) && Fits(g, st) && i <= |g.prereqs| && Progress(g, rank, st, i, e)
    ensures var (st', e') := Process(g, rank, st, i, e); Progress(g, rank, st', |g.prereqs|, e')
    decreases |g.prereqs| - i
  {
    if i < |g.prereqs| {
      if !e && (g.warn[i] || g.error[i]) {
        EnabledRun(g, rank, st, i);
        var (st1, e1) := Run(g, rank, st, i);
        ProcessIs(g, rank, st1, i + 1, e1);
      } else {
        PassedOver(g, rank, st, i, e);
        ProcessIs(g, rank, st, i + 1, e);
      }
    }
  }

  lemma {:induction false} Begins(g: Table, rank: seq<nat>)
    requires Ranked(g, rank)
    ensures Progress(g, rank, Fresh(g), 0, false)
  {
    var st0 := Fresh(g);
    assert forall c | 0 <= c < |g.prereqs| :: Told(g, st0, c);
    assert Steady(g, st0, false);
    ProgressDef(g, rank, st0, 0, false);
  }

  lemma {:induction false} StatusesTell(g: Table, rank: seq<nat>, st: State)
    requires Ranked(g, rank) && Inv(g, st)
    requires forall v | v in st.seen :: v < |g.prereqs| && st.status[v] != UNCHECKED
    requires forall c | 0 <= c < |g.prereqs| ::
               st.status[c] != UNCHECKED ==> Decided(g, rank, c, st.status[c]) && c in st.seen
    ensures forall c | 0 <= c < |g.prereqs| ::
              (c in st.seen <==> st.status[c] != UNCHECKED) &&
              (c in st.ran <==> st.status[c] == PASSED || st.status[c] == FAILED) &&
              (c in st.seen ==> Verdict(g, rank, c, st.status[c])) &&
              (st.status[c] == PASSED <==> c in st.ran && !g.fails[c])
    ensures forall c | c in st.ran :: c < |g.prereqs| && AllPassed(g, st, c)
  {
    forall c | 0 <= c < |g.prereqs|
      ensures c in st.ran <==> st.status[c] == PASSED || st.status[c] == FAILED
      ensures c in st.seen ==> Verdict(g, rank, c, st.status[c])
      ensures st.status[c] == PASSED <==> c in st.ran && !g.fails[c]
    {
      assert Told(g, st, c);
      if c in st.seen {
        DecidedDef(g, rank, c, st.status[c]);
      }
    }
    forall c | c in st.ran ensures c < |g.prereqs| && AllPassed(g, st, c) {
      assert Told(g, st, c);
    }
  }

  /** The main result on checks.  Over every acyclic table: the in-progress assertion never
      fails; no body runs twice, and a body runs only after the bodies of all prerequisites of its
      check have run and found nothing, and only as long as no body of an error-level check has found
      anything.  The status of a check seen says whether it or something it needs finds a fault; all
      others are unchecked.  The error flag is set iff an error-level check seen has not passed.  If
      it is not set, the checks seen are those that the enabled checks need; if it is, there is a first
      enabled check to blame, and nothing was seen but what enabled checks up to it need. */
  lemma {:induction false} ProcessChecks(g: Table, rank: seq<nat>)
    requires Ranked(g, rank)
    ensures var (st, e) := Process(g, rank, Fresh(g), 0, false);
            !st.tripped && NoRepeats(st.ran) &&
            (forall i, q | 0 <= i < |st.ran| && st.ran[i] < |g.prereqs| && q in g.prereqs[st.ran[i]] ::
               q in st.ran[..i] && q < |g.fails| && !g.fails[q]) &&
            (forall k | 0 <= k < |st.ran| - 1 :: st.ran[k] < |g.prereqs| &&
               !(g.error[st.ran[k]] && g.fails[st.ran[k]])) &&
            (forall c | 0 <= c < |g.prereqs| :: (c in st.seen <==> st.status[c] != UNCHECKED) &&
               (c in st.ran <==> st.status[c] == PASSED || st.status[c] == FAILED) &&
               (c in st.seen ==> Verdict(g, rank, c, st.status[c]))) &&
            (forall c | c in st.ran :: c < |g.prereqs| && AllPassed(g, st, c)) &&
            (forall c | 0 <= c < |g.prereqs| :: st.status[c] == PASSED <==> c in st.ran && !g.fails[c]) &&
            (forall c | c in st.seen :: c < |g.prereqs|) &&
            (e <==> exists c :: c in st.seen && g.error[c] && st.status[c] != PASSED) &&
            (!e ==> forall c | 0 <= c < |g.prereqs| :: c in st.seen <==> Wanted(g, rank, |g.prereqs|, c)) &&
            (e ==> exists k :: 0 <= k < |g.prereqs| && StoppedAt(g, rank, st, k))
  {
    Begins(g, rank);
    ProcessIs(g, rank, Fresh(g), 0, false);
    var (st, e) := Process(g, rank, Fresh(g), 0, false);
    ProgressDef(g, rank, st, |g.prereqs|, e);
    forall i, q | 0 <= i < |st.ran| && st.ran[i] < |g.prereqs| && q in g.prereqs[st.ran[i]]
      ensures q in st.ran[..i] && q < |g.fails| && !g.fails[q]
    {
      assert After(g, st.ran[i], st.ran[..i]);
    }
    StatusesTell(g, rank, st);
    if e {
      var v :| v in st.seen && Bad(g, st, v);
      assert g.error[v];
    }
    if c :| c in st.seen && g.error[c] && st.status[c] != PASSED {
      assert Bad(g, st, c);
    }
  }

  // ---- in place ----

  /** The check table with its mutable fields. */
  class Runner {
    const g: Table
    ghost const rank: seq<nat>
    var status: seq<Status>
    var busy: set<nat>
    var seen: set<nat>
    var ran: seq<nat>

    constructor (g: Table, ghost rank: seq<nat>)
      requires Ranked(g, rank)
      ensures this.g == g && this.rank == rank && Now() == Fresh(g)
    {
      this.g := g;
      this.rank := rank;
      status := seq(|g.prereqs|, i => UNCHECKED);
      busy, seen, ran := {}, {}, [];
    }

    ghost function Now(): State
      reads this
    {
      State(status, busy, seen, ran, false)
    }

    /** run_check. */
    method RunCheck(c: nat) returns (error: bool)
      requires Inv(g, Now()) && Above(g, rank, Now(), c)
      modifies this
      ensures (Now(), error) == Run(g, rank, old(Now()), c)
      decreases rank[c], 2
    {
      RunIs(g, rank, Now(), c);
      assert c !in busy;
      seen := seen + {c};
      error := false;
      if status[c] == UNCHECKED {
        busy := busy + {c};
        InvSame(g, old(Now()), Now());
        error := RunPrerequisites(c);
        if status[c] == UNCHECKED {
          ran := ran + [c];
          status := status[c := if g.fails[c] then FAILED else PASSED];
        }
      }
      busy := busy - {c};
      if status[c] != PASSED && g.error[c] {
        error := true;
      }
    }

    /** The loop of run_check over the prerequisites. */
    method RunPrerequisites(c: nat) returns (error: bool)
      requires Inv(g, Now()) && Ranked(g, rank) && c < |g.prereqs| && status[c] == UNCHECKED && c in busy && c in seen
      requires forall b | b in busy :: b < |g.prereqs| && rank[b] >= rank[c]
      modifies this
      ensures (Now(), error) == RunPrereqs(g, rank, old(Now()), c, 0, false)
      decreases rank[c], 1
    {
      ghost var stb := Now();
      error := false;
      var i := 0;
      while i < |g.prereqs[c]|
        invariant i <= |g.prereqs[c]| && PrereqsDone(g, rank, stb, Now(), c, i, error)
        invariant RunPrereqs(g, rank, stb, c, 0, false) == RunPrereqs(g, rank, Now(), c, i, error)
      {
        error := RunPrerequisite(c, i, error, stb);
        i := i + 1;
      }
    }

    /** One turn of the loop. */
    method RunPrerequisite(c: nat, i: nat, e: bool, ghost stb: State) returns (error: bool)
      requires PrereqsDone(g, rank, stb, Now(), c, i, e) && c in stb.busy && c in stb.seen && i < |g.prereqs[c]|
      requires forall b | b in stb.busy :: b < |g.prereqs| && rank[b] >= rank[c]
      modifies this
      ensures PrereqsDone(g, rank, stb, Now(), c, i + 1, error)
      ensures RunPrereqs(g, rank, old(Now()), c, i, e) == RunPrereqs(g, rank, Now(), c, i + 1, error)
      decreases rank[c], 0
    {
      var q := g.prereqs[c][i];
      error := e;
      if !e {
        RunIs(g, rank, Now(), q);
        error := RunCheck(q);
      }
      OnePrereq(g, rank, stb, old(Now()), Now(), c, i, e, error);
      if status[q] != PASSED {
        status := status[c := PREREQ];
      }
    }

    /** The loop of process_checks. */
    method ProcessAll() returns (error: bool)
      requires Ranked(g, rank) && Now() == Fresh(g)
      modifies this
      ensures (Now(), error) == Process(g, rank, Fresh(g), 0, false)
    {
      error := false;
      var i := 0;
      Begins(g, rank);
      ProgressDef(g, rank, Now(), 0, false);
      while i < |g.prereqs|
        invariant i <= |g.prereqs| && Steady(g, Now(), error)
        invariant Process(g, rank, Fresh(g), 0, false) == Process(g, rank, Now(), i, error)
      {
        if !error && (g.warn[i] || g.error[i]) {
          StaysSteady(g, rank, Now(), i);
          error := RunCheck(i);
        }
        i := i + 1;
      }
    }
  }
}
