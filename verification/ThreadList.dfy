/** The server's list of connection threads: accepting, reaping finished threads and the final drain. */
module ThreadList {
  import opened Links
  import SList

  datatype ThreadInfo = ThreadInfo(threadId: nat, workDone: bool)

  // ---------------------------------------------------------------- bookkeeping on values

  function UpTo(n: nat): seq<nat> {
    seq(n, i => i)
  }

  /** The threads started so far, numbered in order, are those joined and those listed, each once. */
  ghost predicate Accounted(created: nat, listed: seq<nat>, joined: seq<nat>) {
    && multiset(joined) + multiset(listed) == multiset(UpTo(created))
    && forall i, j :: 0 <= i < j < |listed| ==> listed[i] > listed[j]
  }

  lemma {:induction false} CountUpTo(n: nat, id: nat)
    ensures multiset(UpTo(n))[id] == if id < n then 1 else 0
  {
    if n > 0 {
      assert UpTo(n) == UpTo(n - 1) + [n - 1];
      CountUpTo(n - 1, id);
    }
  }

  lemma NoRepeats(s: seq<nat>)
    requires forall id :: multiset(s)[id] <= 1
    ensures forall i, j :: 0 <= i < j < |s| ==> s[i] != s[j]
  {
    forall i, j | 0 <= i < j < |s| ensures s[i] != s[j] {
      var rest := s[i + 1..];
      assert s == s[..i] + [s[i]] + rest;
      assert rest[j - i - 1] == s[j];
      assert multiset(s)[s[i]] >= 1 + multiset(rest)[s[i]];
    }
  }

  /** No thread is joined twice, none is joined while listed, and none is lost: a thread that was
      started is either still listed or has been joined. */
  lemma EachThreadOnce(created: nat, listed: seq<nat>, joined: seq<nat>)
    requires Accounted(created, listed, joined)
    ensures forall i, j :: 0 <= i < j < |joined| ==> joined[i] != joined[j]
    ensures forall id: nat :: id < created ==> (id in joined <==> id !in listed)
    ensures forall id: nat :: id in joined || id in listed ==> id < created
  {
    forall id: nat
      ensures multiset(joined)[id] + multiset(listed)[id] == if id < created then 1 else 0
    {
      CountUpTo(created, id);
      assert (multiset(joined) + multiset(listed))[id] == multiset(joined)[id] + multiset(listed)[id];
    }
    NoRepeats(joined);
    assert forall id: nat :: id in joined <==> id in multiset(joined);
    assert forall id: nat :: id in listed <==> id in multiset(listed);
  }

  /** The elements whose flag is `which`, in order. */
  function Pick<T>(s: seq<T>, flags: seq<bool>, which: bool): seq<T>
    requires |s| == |flags|
  {
    if s == [] then []
    else
      var n := |s| - 1;
      Pick(s[..n], flags[..n], which) + if flags[n] == which then [s[n]] else []
  }

  lemma PickFrom<T>(s: seq<T>, flags: seq<bool>, which: bool)
    requires |s| == |flags|
    ensures forall x :: x in Pick(s, flags, which) ==> x in s
  {
  }

  lemma TakeFirst<T>(s: seq<T>)
    requires s != []
    ensures RemovedAt(s, 0) == s[1..]
  {
  }

  lemma AccountJoin(created: nat, listed: seq<nat>, joined: seq<nat>, i: nat)
    requires Accounted(created, listed, joined) && i < |listed|
    ensures Accounted(created, RemovedAt(listed, i), joined + [listed[i]])
  {
    RemovedElement(listed, i);
    RemovedAtIndex(listed, i);
    hide UpTo, RemovedAt;
    assert multiset(joined + [listed[i]]) == multiset(joined) + multiset{listed[i]};
  }

  lemma RemovedElement<T>(s: seq<T>, i: nat)
    requires i < |s|
    ensures multiset(s) == multiset(RemovedAt(s, i)) + multiset{s[i]}
  {
    assert s == s[..i] + [s[i]] + s[i + 1..];
  }

  lemma AccountStart(created: nat, listed: seq<nat>, joined: seq<nat>)
    requires Accounted(created, listed, joined)
    ensures Accounted(created + 1, [created] + listed, joined)
  {
    EachThreadOnce(created, listed, joined);
    assert UpTo(created + 1) == UpTo(created) + [created];
    assert forall i :: 0 <= i < |listed| ==> listed[i] in listed;
  }

  lemma RemovedBehind<T>(x: T, s: seq<T>, i: nat)
    requires i < |s|
    ensures RemovedAt([x] + s, i + 1) == [x] + RemovedAt(s, i)
  {
  }

  // ---------------------------------------------------------------- reaping, on values

  lemma PickStep<T>(s: seq<T>, seen: seq<bool>, done: bool, which: bool)
    requires |seen| < |s|
    ensures Pick(s[..|seen| + 1], seen + [done], which)
            == Pick(s[..|seen|], seen, which) + if done == which then [s[|seen|]] else []
  {
    var k := |seen|;
    assert s[..k + 1][..k] == s[..k] && (seen + [done])[..k] == seen;
  }

  lemma {:induction false} PickLength<S, T>(s: seq<S>, t: seq<T>, flags: seq<bool>, which: bool)
    requires |s| == |t| == |flags|
    ensures |Pick(s, flags, which)| == |Pick(t, flags, which)|
  {
    if s != [] {
      var n := |s| - 1;
      PickLength(s[..n], t[..n], flags[..n], which);
    }
  }

  lemma {:induction false} PickMember<T>(s: seq<T>, flags: seq<bool>, which: bool, x: T)
    requires |s| == |flags|
    ensures x in Pick(s, flags, which) <==> exists k :: 0 <= k < |s| && s[k] == x && flags[k] == which
  {
    if s != [] {
      var n := |s| - 1;
      PickMember(s[..n], flags[..n], which, x);
      assert forall k :: 0 <= k < n ==> s[..n][k] == s[k] && flags[..n][k] == flags[k];
    }
  }

  // ---------------------------------------------------------------- what the threads go through

  /** The threads started (numbered from 0), those listed, newest first, those that have set
      `work_done`, and those joined, in order. */
  datatype Pool = Pool(created: nat, listed: seq<nat>, done: set<nat>, joined: seq<nat>)

  /** Everyone who sets the flag before test number `k` of a pass. */
  function FinishedBefore(finishing: nat -> set<nat>, k: nat): set<nat> {
    if k == 0 then {} else FinishedBefore(finishing, k - 1) + finishing(k - 1)
  }

  /** A thread that has not been started sets no flag. */
  function Known(ids: set<nat>, created: nat): set<nat> {
    set id | id in ids && id < created
  }

  /** What each test of a pass sees. */
  function Seen(p: Pool, finishing: nat -> set<nat>): seq<bool> {
    seq(|p.listed|, k requires 0 <= k < |p.listed| =>
      p.listed[k] in p.done || p.listed[k] in FinishedBefore(finishing, k + 1))
  }

  function Started(p: Pool): Pool {
    p.(created := p.created + 1, listed := [p.created] + p.listed)
  }

  /** Thread number `i` of the list is joined. */
  function JoinedAt(p: Pool, i: nat): Pool
    requires i < |p.listed|
  {
    p.(listed := RemovedAt(p.listed, i), joined := p.joined + [p.listed[i]])
  }

  /** The first `n` listed threads are joined, in list order. */
  function Drain(p: Pool, n: nat): Pool
    requires n <= |p.listed|
  {
    p.(listed := p.listed[n..], joined := p.joined + p.listed[..n])
  }

  function Drained(p: Pool): Pool {
    p.(listed := [], joined := p.joined + p.listed)
  }

  lemma DrainEnds(p: Pool)
    ensures Drain(p, 0) == p && Drain(p, |p.listed|) == Drained(p)
  {
  }

  lemma DrainStep(p: Pool, n: nat)
    requires n < |p.listed|
    ensures JoinedAt(Drain(p, n), 0) == Drain(p, n + 1)
  {
    TakeFirst(p.listed[n..]);
    assert p.listed[..n + 1] == p.listed[..n] + [p.listed[n]];
  }

  function Flagging(p: Pool, ids: set<nat>): Pool {
    p.(done := p.done + Known(ids, p.created))
  }

  /** One pass: those seen finished are joined, the others stay, both in list order. */
  function Reaped(p: Pool, finishing: nat -> set<nat>): Pool {
    Pool(p.created,
         Pick(p.listed, Seen(p, finishing), false),
         p.done + Known(FinishedBefore(finishing, |p.listed|), p.created),
         p.joined + Pick(p.listed, Seen(p, finishing), true))
  }

  /** `n` connections, each followed by its pass. */
  function RunPool(p: Pool, finishing: nat -> nat -> set<nat>, n: nat): (q: Pool)
    ensures q.created == p.created + n
  {
    if n == 0 then p else Reaped(Started(RunPool(p, finishing, n - 1)), finishing(n - 1))
  }

  ghost predicate Numbered(p: Pool) {
    forall i :: 0 <= i < |p.listed| ==> p.listed[i] < p.created
  }

  /** Thread `id` stands at place `k` when the pass begins, and has set its flag when it is tested. */
  ghost predicate SeenAt(p: Pool, finishing: nat -> set<nat>, k: nat, id: nat) {
    k < |p.listed| && p.listed[k] == id && (id in p.done || id in FinishedBefore(finishing, k + 1))
  }

  ghost predicate SeenIn(p: Pool, finishing: nat -> set<nat>, id: nat) {
    exists k: nat :: SeenAt(p, finishing, k, id)
  }

  /** Thread `id`, started before the pass, sets its flag before some test of it. */
  ghost predicate FinishesIn(p: Pool, finishing: nat -> set<nat>, id: nat) {
    id < p.created && exists j: nat :: j < |p.listed| && id in finishing(j)
  }

  /** A pass joins exactly the threads whose flag was set by the time of their own test, and leaves
      none listed whose flag was set when the pass began. */
  lemma PassJoinsFinished(p: Pool, finishing: nat -> set<nat>)
    requires Numbered(p)
    ensures Reaped(p, finishing).created == p.created && Numbered(Reaped(p, finishing))
    ensures forall id :: id in Reaped(p, finishing).joined <==> id in p.joined || SeenIn(p, finishing, id)
    ensures forall id :: id in Reaped(p, finishing).listed ==> id in p.listed && id !in p.done
  {
    var seen := Seen(p, finishing);
    forall id ensures id in Pick(p.listed, seen, true) <==> SeenIn(p, finishing, id) {
      PickMember(p.listed, seen, true, id);
      assert forall k: nat :: k < |p.listed| ==> (SeenAt(p, finishing, k, id) <==> p.listed[k] == id && seen[k]);
    }
    forall id | id in Pick(p.listed, seen, false) ensures id in p.listed && id !in p.done {
      PickMember(p.listed, seen, false, id);
    }
    var q := Reaped(p, finishing);
    assert forall i :: 0 <= i < |q.listed| ==> q.listed[i] in q.listed;
  }

  lemma PassSetsFlags(p: Pool, finishing: nat -> set<nat>, id: nat)
    ensures id in Reaped(p, finishing).done <==> id in p.done || FinishesIn(p, finishing, id)
  {
    FinishedSometime(finishing, |p.listed|, id);
  }

  lemma {:induction false} FinishedSometime(finishing: nat -> set<nat>, k: nat, id: nat)
    ensures id in FinishedBefore(finishing, k) <==> exists j: nat :: j < k && id in finishing(j)
  {
    if k > 0 {
      FinishedSometime(finishing, k - 1, id);
    }
  }

  lemma {:induction false} RunNumbered(p: Pool, finishing: nat -> nat -> set<nat>, n: nat)
    requires Numbered(p)
    ensures Numbered(RunPool(p, finishing, n))
  {
    if n > 0 {
      RunNumbered(p, finishing, n - 1);
      hide Reaped;
      PassJoinsFinished(Started(RunPool(p, finishing, n - 1)), finishing(n - 1));
    }
  }

  /** Thread `id`, started by then, sets its flag during pass `k` of the run. */
  ghost predicate FinishesDuring(p: Pool, finishing: nat -> nat -> set<nat>, k: nat, id: nat) {
    FinishesIn(Started(RunPool(p, finishing, k)), finishing(k), id)
  }

  /** Pass `k` of the run comes to thread `id` and sees its flag. */
  ghost predicate SeenDuring(p: Pool, finishing: nat -> nat -> set<nat>, k: nat, id: nat) {
    SeenIn(Started(RunPool(p, finishing, k)), finishing(k), id)
  }

  lemma FlagsDuring(p: Pool, finishing: nat -> nat -> set<nat>, k: nat, id: nat)
    ensures id in RunPool(p, finishing, k + 1).done <==> id in RunPool(p, finishing, k).done || FinishesDuring(p, finishing, k, id)
  {
    PassSetsFlags(Started(RunPool(p, finishing, k)), finishing(k), id);
    hide FinishesIn, Reaped;
  }

  lemma JoinsDuring(p: Pool, finishing: nat -> nat -> set<nat>, k: nat, id: nat)
    requires Numbered(p)
    ensures id in RunPool(p, finishing, k + 1).joined <==> id in RunPool(p, finishing, k).joined || SeenDuring(p, finishing, k, id)
    ensures id in RunPool(p, finishing, k + 1).listed ==> id !in RunPool(p, finishing, k).done
  {
    RunNumbered(p, finishing, k);
    PassJoinsFinished(Started(RunPool(p, finishing, k)), finishing(k));
    hide SeenIn, Reaped;
  }

  /** A flag is set after a run exactly when it was before, or when its thread, started by then, set it
      during some pass. */
  lemma {:induction false} RunFlagsAreSet(p: Pool, finishing: nat -> nat -> set<nat>, n: nat, id: nat)
    ensures id in RunPool(p, finishing, n).done
       <==> id in p.done || exists k: nat :: k < n && FinishesDuring(p, finishing, k, id)
  {
    hide FinishesDuring, Reaped, Started;
    if n > 0 {
      RunFlagsAreSet(p, finishing, n - 1, id);
      FlagsDuring(p, finishing, n - 1, id);
    }
  }

  /** Over a whole run the passes join exactly the threads, old or started by the run, whose flag was set when
      their turn came in some pass, and a pass leaves no thread listed whose flag was set before it: a thread
      that finishes is joined no later than by the next pass. */
  lemma {:induction false} RunJoinsFinished(p: Pool, finishing: nat -> nat -> set<nat>, n: nat, id: nat)
    requires Numbered(p)
    ensures id in RunPool(p, finishing, n).joined
       <==> id in p.joined || exists k: nat :: k < n && SeenDuring(p, finishing, k, id)
    ensures n > 0 && id in RunPool(p, finishing, n).listed ==> id !in RunPool(p, finishing, n - 1).done
  {
    hide SeenDuring, Reaped, Started, Numbered;
    if n > 0 {
      RunJoinsFinished(p, finishing, n - 1, id);
      JoinsDuring(p, finishing, n - 1, id);
    }
  }

  // ---------------------------------------------------------------- a pass under way

  /** What is left of `s` when its first `|seen|` elements have been tested. */
  function Left<T>(s: seq<T>, seen: seq<bool>): seq<T>
    requires |seen| <= |s|
  {
    Pick(s[..|seen|], seen, false) + s[|seen|..]
  }

  /** Testing one more element: it stands before the untested ones, and goes if its flag is seen. */
  lemma TestedElement<T>(s: seq<T>, seen: seq<bool>, flag: bool) returns (i: nat)
    requires |seen| < |s|
    ensures i == |Left(s, seen)| - (|s| - |seen|) && Left(s, seen)[i] == s[|seen|]
    ensures |seen| + 1 < |s| ==> Left(s, seen)[i + 1] == s[|seen| + 1]
    ensures Left(s, seen + [flag]) == if flag then RemovedAt(Left(s, seen), i) else Left(s, seen)
  {
    var k := |seen|;
    var kept := Pick(s[..k], seen, false);
    i := |kept|;
    PickStep(s, seen, flag, false);
    assert s[k..] == [s[k]] + s[k + 1..];
    RemovedMiddle(kept, s[k], s[k + 1..]);
    hide Pick, RemovedAt;
  }

  lemma RemovedMiddle<T>(kept: seq<T>, x: T, rest: seq<T>)
    ensures RemovedAt(kept + ([x] + rest), |kept|) == kept + rest
    ensures kept + ([x] + rest) == kept + [x] + rest
  {
  }

  /** After the first `k` tests of a pass over `all` that began in `p`. */
  ghost predicate ReapState(all: seq<Link>, p: Pool, finishing: nat -> set<nat>, list: seq<Link>, q: Pool, k: nat) {
    && k <= |all| == |p.listed|
    && var seen := Seen(p, finishing)[..k];
    && list == Left(all, seen)
    && q == Pool(p.created,
                 Left(p.listed, seen),
                 p.done + Known(FinishedBefore(finishing, k), p.created),
                 p.joined + Pick(p.listed[..k], seen, true))
  }

  lemma ReapStart(all: seq<Link>, p: Pool, finishing: nat -> set<nat>)
    requires |all| == |p.listed|
    ensures ReapState(all, p, finishing, all, p, 0)
  {
    assert p.done + Known({}, p.created) == p.done;
    assert p.listed[0..] == p.listed && p.joined + [] == p.joined;
  }

  lemma ReapEnd(all: seq<Link>, p: Pool, finishing: nat -> set<nat>, list: seq<Link>, q: Pool)
    requires ReapState(all, p, finishing, list, q, |all|)
    ensures |all| == |p.listed| && list == Pick(all, Seen(p, finishing), false) && q == Reaped(p, finishing)
  {
    var n := |all|;
    assert all[..n] == all && p.listed[..n] == p.listed && Seen(p, finishing)[..n] == Seen(p, finishing);
  }

  /** What test number `k` sees is who has finished by then. */
  lemma TestSees(p: Pool, finishing: nat -> set<nat>, k: nat)
    requires k < |p.listed| && Numbered(p)
    ensures var seen := Seen(p, finishing);
            var done := p.done + Known(FinishedBefore(finishing, k), p.created) + Known(finishing(k), p.created);
            && done == p.done + Known(FinishedBefore(finishing, k + 1), p.created)
            && seen[..k + 1] == seen[..k] + [seen[k]]
            && (seen[k] <==> p.listed[k] in done)
  {
  }

  /** Where the thread under test stands in the shrunken list. */
  lemma ReapIndex(all: seq<Link>, p: Pool, finishing: nat -> set<nat>, list: seq<Link>, q: Pool, k: nat) returns (i: nat)
    requires ReapState(all, p, finishing, list, q, k) && k < |all|
    ensures i < |list| == |q.listed| && i == |list| - (|all| - k)
    ensures list[i] == all[k] && q.listed[i] == p.listed[k]
    ensures if k + 1 < |all| then i + 1 < |list| && list[i + 1] == all[k + 1] else i + 1 == |list|
  {
    var seen := Seen(p, finishing);
    i := TestedElement(all, seen[..k], seen[k]);
    var j := TestedElement(p.listed, seen[..k], seen[k]);
    LeftLength(all, p.listed, seen[..k]);
    hide Pick, Left, Seen, FinishedBefore, Known, RemovedAt;
  }

  /** A thread whose flag is set is taken off, another stays: either way the account is kept. */
  lemma ReapTest(all: seq<Link>, p: Pool, finishing: nat -> set<nat>, list: seq<Link>, q: Pool, k: nat, i: nat)
    requires ReapState(all, p, finishing, list, q, k) && k < |all| && Numbered(p)
    requires i < |list| == |q.listed| && i == |list| - (|all| - k) && q.listed[i] == p.listed[k]
    ensures var q' := Flagging(q, finishing(k));
            if q.listed[i] in q'.done
            then ReapState(all, p, finishing, RemovedAt(list, i), JoinedAt(q', i), k + 1)
            else ReapState(all, p, finishing, list, q', k + 1)
  {
    var seen := Seen(p, finishing);
    var _ := TestedElement(all, seen[..k], seen[k]);
    var _ := TestedElement(p.listed, seen[..k], seen[k]);
    TestSees(p, finishing, k);
    JoinedByTest(p.listed, seen[..k], seen[k], p.joined);
    hide Pick, Left, Seen, FinishedBefore, Known, Numbered, RemovedAt;
  }

  lemma JoinedByTest<T>(s: seq<T>, seen: seq<bool>, flag: bool, joined: seq<T>)
    requires |seen| < |s|
    ensures joined + Pick(s[..|seen| + 1], seen + [flag], true)
            == if flag then joined + Pick(s[..|seen|], seen, true) + [s[|seen|]] else joined + Pick(s[..|seen|], seen, true)
  {
    PickStep(s, seen, flag, true);
    hide Pick;
  }

  lemma LeftLength<S, T>(s: seq<S>, t: seq<T>, seen: seq<bool>)
    requires |seen| <= |s| == |t|
    ensures |Left(s, seen)| == |Left(t, seen)|
  {
    PickLength(s[..|seen|], t[..|seen|], seen, false);
  }

  // ---------------------------------------------------------------- the thread structures

  ghost predicate Describes(threads: map<Link, ThreadInfo>, l: Link, id: nat, done: set<nat>) {
    l in threads && threads[l] == ThreadInfo(id, id in done)
  }

  /** Every thread started is listed or joined, and the listed structures hold the listed threads' numbers and flags. */
  ghost predicate Kept(threads: map<Link, ThreadInfo>, list: seq<Link>, p: Pool) {
    && Accounted(p.created, p.listed, p.joined)
    && (forall id :: id in p.done ==> id < p.created)
    && |list| == |p.listed|
    && forall i :: 0 <= i < |list| ==> Describes(threads, list[i], p.listed[i], p.done)
  }

  lemma KeptDescribes(threads: map<Link, ThreadInfo>, list: seq<Link>, p: Pool, i: nat)
    requires Kept(threads, list, p) && i < |list|
    ensures |list| == |p.listed| && Describes(threads, list[i], p.listed[i], p.done)
  {
  }

  lemma KeptNumbered(threads: map<Link, ThreadInfo>, list: seq<Link>, p: Pool)
    requires Kept(threads, list, p)
    ensures Numbered(p) && |list| == |p.listed|
  {
    EachThreadOnce(p.created, p.listed, p.joined);
    assert forall i :: 0 <= i < |p.listed| ==> p.listed[i] in p.listed;
  }

  lemma AllJoined(threads: map<Link, ThreadInfo>, p: Pool)
    requires Kept(threads, [], p)
    ensures multiset(p.joined) == multiset(UpTo(p.created))
  {
    assert p.listed == [];
  }

  lemma KeptOther(threads: map<Link, ThreadInfo>, list: seq<Link>, p: Pool, l: Link, info: ThreadInfo)
    requires Kept(threads, list, p) && l !in list
    ensures Kept(threads[l := info], list, p)
  {
    hide Accounted;
    assert forall i :: 0 <= i < |list| ==> list[i] in list;
  }

  lemma KeptStart(threads: map<Link, ThreadInfo>, list: seq<Link>, p: Pool, l: Link)
    requires Kept(threads, list, p) && l !in list
    ensures Kept(threads[l := ThreadInfo(p.created, false)], [l] + list, Started(p))
  {
    AccountStart(p.created, p.listed, p.joined);
    KeptOther(threads, list, p, l, ThreadInfo(p.created, false));
    hide Accounted;
  }

  lemma KeptJoin(threads: map<Link, ThreadInfo>, list: seq<Link>, p: Pool, i: nat)
    requires Kept(threads, list, p) && i < |list| && list[i] !in RemovedAt(list, i)
    ensures |list| == |p.listed| && Kept(threads - {list[i]}, RemovedAt(list, i), JoinedAt(p, i))
  {
    AccountJoin(p.created, p.listed, p.joined, i);
    RemovedAtIndex(list, i);
    RemovedAtIndex(p.listed, i);
    hide Accounted, RemovedAt;
    var rest, ids := RemovedAt(list, i), RemovedAt(p.listed, i);
    forall k | 0 <= k < |rest| ensures Describes(threads - {list[i]}, rest[k], ids[k], p.done) {
      var j := if k < i then k else k + 1;
      assert rest[k] in rest && Describes(threads, list[j], p.listed[j], p.done);
    }
  }

  function Finish(info: ThreadInfo, ids: set<nat>): ThreadInfo {
    if info.threadId in ids then info.(workDone := true) else info
  }

  lemma KeptFlags(threads: map<Link, ThreadInfo>, list: seq<Link>, p: Pool, ids: set<nat>)
    requires Kept(threads, list, p)
    ensures Kept(map l | l in threads :: Finish(threads[l], ids), list, Flagging(p, ids))
  {
    KeptNumbered(threads, list, p);
    hide Accounted;
  }

  lemma RemovedElements(list: seq<Link>, i: nat)
    requires i < |list| && forall j, k :: 0 <= j < k < |list| ==> list[j] != list[k]
    ensures (set l | l in RemovedAt(list, i)) == (set l | l in list) - {list[i]}
  {
  }

  lemma DistinctElements(head: Link, list: seq<Link>, i: nat)
    requires Chain([head] + list) && i < |list|
    ensures forall j, k :: 0 <= j < k < |list| ==> list[j] != list[k]
    ensures list[i] !in [head] + RemovedAt(list, i)
  {
    var p := [head] + list;
    assert forall j :: 0 <= j < |list| ==> list[j] == p[j + 1];
    assert p[0] == head;
  }

  lemma DropOne<T>(s: seq<T>, n: nat)
    requires n < |s|
    ensures s[n..][1..] == s[n + 1..] && s[n..][0] == s[n] && s[n] in s
  {
  }

  lemma FirstListed(head: Link, list: seq<Link>)
    requires Chain([head] + list)
    ensures head.next == if list == [] then null else list[0]
  {
    assert ([head] + list)[0] == head;
  }

  lemma InsertedFirst(head: Link, list: seq<Link>, x: Link)
    ensures InsertedAt([head] + list, 1, x) == [head] + ([x] + list)
    ensures (set l | l in [x] + list) == (set l | l in list) + {x}
  {
  }

  /** The structures left when the first `n` of the list have been freed. */
  ghost function Freed(threads: map<Link, ThreadInfo>, list: seq<Link>, n: nat): map<Link, ThreadInfo>
    requires n <= |list|
  {
    threads - set l | l in list[..n]
  }

  lemma FreedStep(threads: map<Link, ThreadInfo>, list: seq<Link>, n: nat)
    requires n < |list|
    ensures Freed(threads, list, n) - {list[n]} == Freed(threads, list, n + 1)
  {
    assert list[..n + 1] == list[..n] + [list[n]];
  }

  lemma FreedEnds(threads: map<Link, ThreadInfo>, list: seq<Link>)
    ensures Freed(threads, list, 0) == threads
    ensures Freed(threads, list, |list|) == threads - set l | l in list
  {
    assert list[..|list|] == list;
  }

  // ---------------------------------------------------------------- the server

  class Server {
    const head: Link
    var threads: map<Link, ThreadInfo>  // the allocated thread structures, by the list entry they embed
    var created: nat                    // threads started so far; the next one gets this number
    ghost var list: seq<Link>           // the listed entries, newest first
    ghost var pool: Pool                // what the threads have gone through

    ghost predicate Valid()
      reads this, head, list
    {
      Listed() && threads.Keys == set l | l in list
    }

    /** Everything but that nothing else is allocated. */
    ghost predicate Listed()
      reads this, head, list
    {
      Chain([head] + list) && created == pool.created && Kept(threads, list, pool)
    }

    /** `SLIST_INIT` on the empty list. */
    constructor ()
      ensures Valid() && list == [] && pool == Pool(0, [], {}, []) && fresh(head)
    {
      head := new Link();
      threads, created, list, pool := map[], 0, [], Pool(0, [], {}, []);
      new;
      assert [head] + list == [head];
    }

    /** Other threads reach the end of `handle_connection` and set their flags. */
    method HandlersFinish(ids: set<nat>)
      requires Valid()
      modifies this`threads, this`pool
      ensures Valid() && pool == Flagging(old(pool), ids)
      ensures threads.Keys == old(threads).Keys
      ensures forall l :: l in threads ==>
                && threads[l].threadId == old(threads)[l].threadId
                && (threads[l].workDone <==> old(threads)[l].workDone || threads[l].threadId in ids)
    {
      KeptFlags(threads, list, pool, ids);
      hide Kept, Chain;
      threads := map l | l in threads :: Finish(threads[l], ids);
      pool := Flagging(pool, ids);
    }

    /** Joins and frees the `i`-th listed thread, which has just been taken off the list. The link is
        part of what is freed: nothing is known of it afterwards. */
    method JoinAndFree(thread: Link, ghost i: nat)
      requires i < |list| && list[i] == thread && thread !in [head] + RemovedAt(list, i)
      requires Chain([head] + RemovedAt(list, i)) && created == pool.created && Kept(threads, list, pool)
      modifies this`threads, this`list, this`pool, thread
      ensures Listed() && list == RemovedAt(old(list), i) && threads == old(threads) - {thread}
      ensures pool == JoinedAt(old(pool), i)
    {
      KeptDescribes(threads, list, pool, i);
      KeptJoin(threads, list, pool, i);
      hide Kept;
      pool := pool.(listed := RemovedAt(pool.listed, i), joined := pool.joined + [threads[thread].threadId]);
      threads := threads - {thread};
      list := RemovedAt(list, i);
      thread.next, thread.prev := *, *;
    }

    /** One turn of the draining loop. */
    method DrainHead()
      requires Listed() && list != []
      modifies this, head, list[0]
      ensures Listed() && list == old(list)[1..] && threads == old(threads) - {old(list)[0]}
      ensures |old(pool).listed| == |old(list)| && pool == JoinedAt(old(pool), 0)
    {
      KeptDescribes(threads, list, pool, 0);
      hide Kept;
      var thread := head.next;
      FirstListed(head, list);
      DistinctElements(head, list, 0);
      SList.RemoveHead(head, [head] + list);
      RemovedBehind(head, list, 0);
      TakeFirst(list);
      JoinAndFree(thread, 0);
    }

    /** The draining loop of `cleanup`: every listed thread is joined once, in list order, and freed. */
    method Cleanup()
      requires Listed()
      modifies this, head, list
      ensures Listed() && list == [] && threads == old(threads) - set l | l in old(list)
      ensures pool == Drained(old(pool))
    {
      KeptNumbered(threads, list, pool);
      hide Kept;
      ghost var n, all, before, p := 0, list, threads, pool;
      DrainEnds(p);
      FreedEnds(before, all);
      FirstListed(head, list);
      hide Drain, Drained, Freed, JoinedAt, Chain;
      while head.next != null
        invariant Listed() && head.next == if list == [] then null else list[0]
        invariant n + |list| == |all| && list == all[n..]
        invariant pool == Drain(p, n)
        invariant threads == Freed(before, all, n)
        decreases |list|
      {
        FreedStep(before, all, n);
        DrainStep(p, n);
        DropOne(all, n);
        DrainHead();
        FirstListed(head, list);
        n := n + 1;
      }
    }

    /** One accepted connection: a thread structure is allocated, its thread started and the structure
        listed; when either fails the server cleans up and ends. */
    method Accept(mallocOk: bool, createOk: bool) returns (running: bool)
      requires Valid()
      modifies this, head, list
      ensures running == (mallocOk && createOk)
      ensures running ==>
                && Valid() && pool == Started(old(pool))
                && |list| == |old(list)| + 1 && list[1..] == old(list) && fresh(list[0])
      ensures !running ==> Listed() && list == [] && pool == Drained(old(pool))
    {
      hide Kept;
      running := mallocOk && createOk;
      if !mallocOk {
        Cleanup();
        return;
      }
      var newThread := new Link();
      if !createOk {
        KeptOther(threads, list, pool, newThread, ThreadInfo(created, false));
        threads := threads[newThread := ThreadInfo(created, false)];
        Cleanup();
        return;
      }
      Enlist(newThread);
    }

    /** A thread is started and its structure listed. */
    method Enlist(newThread: Link)
      requires Valid() && newThread !in [head] + list
      modifies this, head`next, newThread`next
      ensures Valid() && pool == Started(old(pool)) && list == [newThread] + old(list)
    {
      KeptStart(threads, list, pool, newThread);
      InsertedFirst(head, list, newThread);
      hide Kept, Chain;
      SList.InsertHead(head, newThread, [head] + list);
      threads := threads[newThread := ThreadInfo(created, false)];
      list := [newThread] + list;
      pool := Started(pool);
      created := created + 1;
    }

    /** A finished thread is taken off the list, joined and freed. */
    method TakeOff(thread: Link, ghost i: nat)
      requires Valid() && i < |list| && list[i] == thread
      modifies this, {([head] + list)[i]}`next, thread
      ensures Valid() && list == RemovedAt(old(list), i)
      ensures i < |old(pool).listed| && pool == JoinedAt(old(pool), i)
    {
      KeptDescribes(threads, list, pool, i);
      hide Kept;
      RemovedBehind(head, list, i);
      DistinctElements(head, list, i);
      SList.Remove(head, thread, [head] + list, i + 1);
      RemovedElements(list, i);
      JoinAndFree(thread, i);
    }

    /** One turn of the reaping loop. */
    method ReapOne(thread: Link, step: nat, finishing: nat -> set<nat>, ghost all: seq<Link>, ghost p: Pool)
      returns (next: Link?, step': nat)
      requires Valid() && step < |all| && all[step] == thread && Numbered(p)
      requires ReapState(all, p, finishing, list, pool, step)
      requires forall l :: l in list ==> l in all
      modifies this, head, all
      ensures Valid()
      ensures forall l :: l in list ==> l in all
      ensures step' == step + 1 && next == if step' < |all| then all[step'] else null
      ensures ReapState(all, p, finishing, list, pool, step')
    {
      hide Kept, ReapState, Known, Numbered;
      ghost var i := ReapIndex(all, p, finishing, list, pool, step);
      ReapTest(all, p, finishing, list, pool, step, i);
      assert ([head] + list)[i + 1] == thread && ([head] + list)[i] in [head] + all;
      next := thread.next;
      HandlersFinish(finishing(step));
      KeptDescribes(threads, list, pool, i);
      if threads[thread].workDone {
        TakeOff(thread, i);
      }
      step' := step + 1;
    }

    /** The reaping loop of `main`: other threads may finish before each test (`finishing`). What stays
        listed is what was not seen finished, in order; the others have been joined, in list order, and freed. */
    method Reap(finishing: nat -> set<nat>)
      requires Valid()
      modifies this, head, list
      ensures Valid() && pool == Reaped(old(pool), finishing)
      ensures |old(list)| == |old(pool).listed| && list == Pick(old(list), Seen(old(pool), finishing), false)
    {
      ghost var all, p := list, pool;
      KeptNumbered(threads, list, pool);
      ReapStart(all, p, finishing);
      var thread, step := head.next, 0;
      FirstListed(head, list);
      hide Kept, ReapState, Pick, FinishedBefore, Chain, Numbered;
      while thread != null
        invariant Valid() && step <= |all|
        invariant thread == if step < |all| then all[step] else null
        invariant forall l :: l in list ==> l in all
        invariant ReapState(all, p, finishing, list, pool, step)
        decreases |all| - step
      {
        thread, step := ReapOne(thread, step, finishing, all, p);
      }
      ReapEnd(all, p, finishing, list, pool);
    }

    /** The accepting loop of `main`, for any number of connections: (malloc succeeds, pthread_create succeeds)
        for each, and the threads, among them those the loop itself starts, that set their flags during each
        reaping pass. The threads go through the run of the connections served; if one cannot be served,
        the threads then listed are drained. */
    method AcceptLoop(connections: seq<(bool, bool)>, finishing: nat -> nat -> set<nat>)
      returns (running: bool, served: nat)
      requires Valid()
      modifies this, head, list
      ensures served <= |connections| && (running <==> served == |connections|)
      ensures forall k :: 0 <= k < served ==> connections[k].0 && connections[k].1
      ensures !running ==> !(connections[served].0 && connections[served].1)
      ensures Listed() && (running ==> Valid())
      ensures var p := RunPool(old(pool), finishing, served); pool == if running then p else Drained(p)
      ensures !running ==> list == [] && multiset(pool.joined) == multiset(UpTo(pool.created))
    {
      hide Kept, Chain, Pick, FinishedBefore, Reaped, Started;
      served := 0;
      while served < |connections|
        invariant Valid() && served <= |connections|
        invariant forall i :: 0 <= i < |list| ==> list[i] in old(list) || fresh(list[i])
        invariant forall i :: 0 <= i < served ==> connections[i].0 && connections[i].1
        invariant pool == RunPool(old(pool), finishing, served)
      {
        ghost var before := list;
        running := Accept(connections[served].0, connections[served].1);
        if !running {
          AllJoined(threads, pool);
          return;
        }
        assert list == [list[0]] + before;
        ghost var all, p := list, pool;
        Reap(finishing(served));
        PickFrom(all, Seen(p, finishing(served)), false);
        assert forall i :: 0 <= i < |list| ==> list[i] in list;
        served := served + 1;
      }
      running := true;
    }
  }
}
