/**
 * The dashboard's reading of a user's task list: how each task's loosely typed
 * `status` is classified, the three counters shown on the stats cards, the label
 * and badge colour of each list entry, and the guard that runs before a task
 * submission is sent.
 *
 * The two classifications differ. The counters count `null` and `false` as
 * pending and only `true` as completed; the list labels `true` Completed,
 * `false` Incomplete and everything else Pending. A task whose status is
 * missing (or any other value) is therefore labelled Pending but is counted
 * in no bucket except the total.
 */
module Dashboard {
  import Js
  import opened Results

  /** A task's `status` as strict equality (`===`) sees it. */
  datatype Status =
    | True     // `true`
    | False    // `false`
    | Null     // `null`
    | Absent   // missing (`undefined`) or any other value

  /** Decodes the raw JSON `status` field. */
  function StatusOf(v: Js.JsValue): (s: Status)
    ensures s == True <==> v == Js.Bool(true)
    ensures s == False <==> v == Js.Bool(false)
    ensures s == Null <==> v == Js.Null
    ensures s == Absent <==> v !in {Js.Bool(true), Js.Bool(false), Js.Null}
  {
    match v
    case Bool(b) => if b then True else False
    case Null => Null
    case _ => Absent
  }

  /** One element of the task list returned for a user. */
  datatype Task = Task(oid: string, title: string, description: string, status: Status)

  /** The three counters on the stats cards. */
  datatype Stats = Stats(total: nat, pending: nat, completed: nat)

  /** The filter behind the "Pending Tasks" counter. */
  predicate CountedPending(s: Status) {
    s == Null || s == False
  }

  /** The filter behind the "Completed Tasks" counter. */
  predicate CountedCompleted(s: Status) {
    s == True
  }

  /** `tasks.filter(t => p(t.status)).length`. */
  function CountWhere(tasks: seq<Task>, p: Status -> bool): (n: nat)
    ensures n <= |tasks|
    ensures n == 0 <==> forall i | 0 <= i < |tasks| :: !p(tasks[i].status)
    ensures n == |tasks| <==> forall i | 0 <= i < |tasks| :: p(tasks[i].status)
  {
    if tasks == [] then 0
    else
      var rest := CountWhere(tasks[1..], p);
      assert forall i | 1 <= i < |tasks| :: tasks[i] == tasks[1..][i - 1];
      (if p(tasks[0].status) then 1 else 0) + rest
  }

  /** The stats computed from a freshly fetched task list. */
  function ComputeStats(tasks: seq<Task>): (st: Stats)
    ensures st.total == |tasks|
    ensures st.pending + st.completed <= st.total
  {
    var st := Stats(|tasks|, CountWhere(tasks, CountedPending), CountWhere(tasks, CountedCompleted));
    StatsAgainstTallies(tasks);
    st
  }

  // ---------------------------------------------------------------------------
  // The counters read off the raw JSON statuses.
  // ---------------------------------------------------------------------------

  /** A task as fetched, its `status` still the raw JSON value. */
  datatype RawTask = RawTask(oid: string, title: string, description: string, status: Js.JsValue)

  /** A fetched task with its status decoded. */
  function Decode(raw: RawTask): Task {
    Task(raw.oid, raw.title, raw.description, StatusOf(raw.status))
  }

  /** The fetched list with every status decoded, in order. */
  function DecodeAll(raws: seq<RawTask>): (tasks: seq<Task>)
    ensures |tasks| == |raws|
    ensures forall i | 0 <= i < |raws| :: tasks[i] == Decode(raws[i])
  {
    seq(|raws|, i requires 0 <= i < |raws| => Decode(raws[i]))
  }

  /** `data.filter(task => p(task.status)).length` on the raw JSON statuses. */
  function RawCountWhere(raws: seq<RawTask>, p: Js.JsValue -> bool): (n: nat)
    ensures n <= |raws|
  {
    if raws == [] then 0
    else (if p(raws[0].status) then 1 else 0) + RawCountWhere(raws[1..], p)
  }

  /** `task.status === null || task.status === false`. */
  predicate RawPending(v: Js.JsValue) {
    v == Js.Null || v == Js.Bool(false)
  }

  /** `task.status === true`. */
  predicate RawCompleted(v: Js.JsValue) {
    v == Js.Bool(true)
  }

  /** Counting decoded statuses with `p` is counting raw statuses with any `q` that agrees with `p` after decoding. */
  lemma {:induction false} DecodedCountIsRawCount(raws: seq<RawTask>, p: Status -> bool, q: Js.JsValue -> bool)
    requires forall v :: q(v) == p(StatusOf(v))
    ensures CountWhere(DecodeAll(raws), p) == RawCountWhere(raws, q)
  {
    if raws != [] {
      assert DecodeAll(raws)[1..] == DecodeAll(raws[1..]);
      DecodedCountIsRawCount(raws[1..], p, q);
    }
  }

  /**
   * The stats of the decoded list are exactly the length and the two filters
   * written on the raw values with strict equality.
   */
  lemma StatsFromRawStatuses(raws: seq<RawTask>)
    ensures ComputeStats(DecodeAll(raws))
         == Stats(|raws|, RawCountWhere(raws, RawPending), RawCountWhere(raws, RawCompleted))
  {
    DecodedCountIsRawCount(raws, CountedPending, RawPending);
    DecodedCountIsRawCount(raws, CountedCompleted, RawCompleted);
  }

  // ---------------------------------------------------------------------------
  // A reference definition of the counts: multiplicities in the multiset of
  // statuses.
  // ---------------------------------------------------------------------------

  /** The statuses of the tasks, in list order. */
  function Statuses(tasks: seq<Task>): (ss: seq<Status>)
    ensures |ss| == |tasks|
    ensures forall i | 0 <= i < |tasks| :: ss[i] == tasks[i].status
  {
    seq(|tasks|, i requires 0 <= i < |tasks| => tasks[i].status)
  }

  /** How many tasks carry exactly status `s`. */
  function Tally(tasks: seq<Task>, s: Status): nat {
    multiset(Statuses(tasks))[s]
  }

  /** The sum of the tallies of the statuses `p` accepts. */
  function TallyWhere(tasks: seq<Task>, p: Status -> bool): nat {
    (if p(True) then Tally(tasks, True) else 0)
    + (if p(False) then Tally(tasks, False) else 0)
    + (if p(Null) then Tally(tasks, Null) else 0)
    + (if p(Absent) then Tally(tasks, Absent) else 0)
  }

  /** Peeling the first task off the list peels one status off each tally. */
  lemma TallyCons(tasks: seq<Task>, s: Status)
    requires tasks != []
    ensures Tally(tasks, s) == (if tasks[0].status == s then 1 else 0) + Tally(tasks[1..], s)
  {
    assert Statuses(tasks) == [tasks[0].status] + Statuses(tasks[1..]);
  }

  /** A tally is zero exactly when no task carries that status. */
  lemma TallyZero(tasks: seq<Task>, s: Status)
    ensures Tally(tasks, s) == 0 <==> forall i | 0 <= i < |tasks| :: tasks[i].status != s
  {
  }

  /** Every task carries exactly one of the four statuses. */
  lemma {:induction false} TallyPartition(tasks: seq<Task>)
    ensures Tally(tasks, True) + Tally(tasks, False) + Tally(tasks, Null) + Tally(tasks, Absent) == |tasks|
  {
    if tasks == [] {
      assert Statuses(tasks) == [];
    } else {
      TallyCons(tasks, True);
      TallyCons(tasks, False);
      TallyCons(tasks, Null);
      TallyCons(tasks, Absent);
      TallyPartition(tasks[1..]);
    }
  }

  /** Filtering by a status predicate and summing the tallies it accepts agree. */
  lemma {:induction false} CountWhereIsTallyWhere(tasks: seq<Task>, p: Status -> bool)
    ensures CountWhere(tasks, p) == TallyWhere(tasks, p)
  {
    if tasks == [] {
      assert Statuses(tasks) == [];
    } else {
      TallyCons(tasks, True);
      TallyCons(tasks, False);
      TallyCons(tasks, Null);
      TallyCons(tasks, Absent);
      CountWhereIsTallyWhere(tasks[1..], p);
    }
  }

  /**
   * What the counters mean: `pending` counts the `null` and the `false`
   * statuses together (explicitly Incomplete tasks are folded into pending),
   * `completed` counts the `true` ones, and the gap to `total` is exactly the
   * number of tasks whose status is missing or of another kind.
   */
  lemma StatsAgainstTallies(tasks: seq<Task>)
    ensures CountWhere(tasks, CountedPending) == Tally(tasks, Null) + Tally(tasks, False)
    ensures CountWhere(tasks, CountedCompleted) == Tally(tasks, True)
    ensures CountWhere(tasks, CountedPending) + CountWhere(tasks, CountedCompleted) + Tally(tasks, Absent) == |tasks|
  {
    CountWhereIsTallyWhere(tasks, CountedPending);
    CountWhereIsTallyWhere(tasks, CountedCompleted);
    TallyPartition(tasks);
  }

  /** The same statements about the result of `ComputeStats`. */
  lemma StatsMeaning(tasks: seq<Task>)
    ensures ComputeStats(tasks).total == |tasks|
    ensures ComputeStats(tasks).pending == Tally(tasks, Null) + Tally(tasks, False)
    ensures ComputeStats(tasks).completed == Tally(tasks, True)
    ensures ComputeStats(tasks).pending + ComputeStats(tasks).completed + Tally(tasks, Absent) == |tasks|
  {
    StatsAgainstTallies(tasks);
  }

  /**
   * `pending + completed == total` holds exactly when every status is one of
   * `true`, `false` and `null`.
   */
  lemma StatsSumIffNoAbsent(tasks: seq<Task>)
    ensures ComputeStats(tasks).pending + ComputeStats(tasks).completed == ComputeStats(tasks).total
        <==> forall i | 0 <= i < |tasks| :: tasks[i].status != Absent
  {
    StatsAgainstTallies(tasks);
    TallyZero(tasks, Absent);
  }

  // ---------------------------------------------------------------------------
  // The counters do not depend on the order in which the tasks arrive.
  // ---------------------------------------------------------------------------

  /** Counting over a concatenation adds the counts of the parts. */
  lemma {:induction false} CountWhereAppend(a: seq<Task>, b: seq<Task>, p: Status -> bool)
    ensures CountWhere(a + b, p) == CountWhere(a, p) + CountWhere(b, p)
  {
    if a == [] {
      assert a + b == b;
    } else {
      assert (a + b)[1..] == a[1..] + b;
      CountWhereAppend(a[1..], b, p);
    }
  }

  /** Counting is invariant under every permutation of the list. */
  lemma {:induction false} CountWherePermutation(a: seq<Task>, b: seq<Task>, p: Status -> bool)
    requires multiset(a) == multiset(b)
    ensures CountWhere(a, p) == CountWhere(b, p)
    decreases |a|
  {
    if a == [] {
      assert |b| == |multiset(b)| == 0;
    } else {
      var x := a[0];
      assert x in multiset(b);
      var j :| 0 <= j < |b| && b[j] == x;
      var rest := b[..j] + b[j + 1..];
      assert b == b[..j] + ([x] + b[j + 1..]);
      assert a == [x] + a[1..];
      assert multiset(a) == multiset{x} + multiset(a[1..]);
      assert multiset(b) == multiset{x} + multiset(rest);
      assert multiset(a[1..]) == multiset(a) - multiset{x};
      assert multiset(rest) == multiset(b) - multiset{x};
      CountWherePermutation(a[1..], rest, p);
      CountWhereAppend(b[..j], [x] + b[j + 1..], p);
      CountWhereAppend([x], b[j + 1..], p);
      CountWhereAppend(b[..j], b[j + 1..], p);
    }
  }

  /** Reordering the fetched list leaves all three counters unchanged. */
  lemma StatsPermutationInvariant(a: seq<Task>, b: seq<Task>)
    requires multiset(a) == multiset(b)
    ensures ComputeStats(a) == ComputeStats(b)
  {
    assert |a| == |multiset(a)| == |multiset(b)| == |b|;
    CountWherePermutation(a, b, CountedPending);
    CountWherePermutation(a, b, CountedCompleted);
  }

  // ---------------------------------------------------------------------------
  // The label and the badge of one list entry.
  // ---------------------------------------------------------------------------

  /** The text shown in a task's badge. */
  datatype Label = Completed | Incomplete | Pending

  /** The label chosen by the nested conditional in the task list. */
  function LabelOf(s: Status): (l: Label)
    ensures l == Completed <==> s == True
    ensures l == Incomplete <==> s == False
    ensures l == Pending <==> s == Null || s == Absent
  {
    match s
    case True => Completed
    case False => Incomplete
    case Null => Pending
    case Absent => Pending
  }

  /** The badge colours. */
  datatype Badge = Green | Yellow

  /** The badge colour: green for a `true` status, yellow for everything else. */
  function BadgeOf(s: Status): (b: Badge)
    ensures b == Green <==> LabelOf(s) == Completed
    ensures b == Yellow <==> LabelOf(s) in {Incomplete, Pending}
  {
    if s == True then Green else Yellow
  }

  /** The filter "the entry is labelled `l`". */
  function ShowsLabel(l: Label): Status -> bool {
    (s: Status) => LabelOf(s) == l
  }

  /**
   * How the list's labels relate to the counters: as many entries are labelled
   * Completed as the completed counter says, the Incomplete labels are the
   * `false` statuses, and the Pending labels are the `null` statuses plus the
   * missing ones. So the pending counter equals the Incomplete and Pending
   * labels together, minus the tasks with a missing status.
   */
  lemma LabelsAgainstStats(tasks: seq<Task>)
    ensures CountWhere(tasks, ShowsLabel(Completed)) == ComputeStats(tasks).completed
    ensures CountWhere(tasks, ShowsLabel(Incomplete)) == Tally(tasks, False)
    ensures CountWhere(tasks, ShowsLabel(Pending)) == Tally(tasks, Null) + Tally(tasks, Absent)
    ensures CountWhere(tasks, ShowsLabel(Incomplete)) + CountWhere(tasks, ShowsLabel(Pending))
         == ComputeStats(tasks).pending + Tally(tasks, Absent)
  {
    StatsAgainstTallies(tasks);
    CountWhereIsTallyWhere(tasks, ShowsLabel(Completed));
    CountWhereIsTallyWhere(tasks, ShowsLabel(Incomplete));
    CountWhereIsTallyWhere(tasks, ShowsLabel(Pending));
  }

  /**
   * The disagreement between the two classifications: a task with a missing
   * status is listed as Pending with a yellow badge, yet on its own it yields
   * a pending counter of zero.
   */
  lemma AbsentLabelledPendingButNotCounted(t: Task)
    requires t.status == Absent
    ensures LabelOf(t.status) == Pending && BadgeOf(t.status) == Yellow
    ensures ComputeStats([t]) == Stats(1, 0, 0)
  {
  }

  // ---------------------------------------------------------------------------
  // The guard in front of a task submission.
  // ---------------------------------------------------------------------------

  const UserDataNotFound: string := "User data not found"

  /** One entry of the multipart form sent with a submission. */
  datatype FormValue = FileValue(bytes: seq<bv8>) | TextValue(value: Js.JsValue)

  /**
   * The form a submission sends, or the error raised before anything is sent.
   * `userData` is the user record parsed from browser storage (`null` when
   * none was stored).
   */
  function PrepareSubmission(userData: Js.JsValue, taskId: Js.JsValue, file: seq<bv8>)
    : (r: Result<seq<(string, FormValue)>, string>)
    ensures r.Err? <==> !Js.Truthy(userData) || !Js.Truthy(Js.Get(userData, "_id"))
    ensures r.Err? ==> r.error == UserDataNotFound
    ensures r.Ok? ==> userData.Obj? && Js.Truthy(userData.fields["_id"])
    ensures r.Ok? ==> r.value == [("file", FileValue(file)),
                                  ("userId", TextValue(userData.fields["_id"])),
                                  ("taskId", TextValue(taskId))]
  {
    if !Js.Truthy(userData) || !Js.Truthy(Js.Get(userData, "_id")) then
      Err(UserDataNotFound)
    else
      Ok([("file", FileValue(file)),
          ("userId", TextValue(Js.Get(userData, "_id"))),
          ("taskId", TextValue(taskId))])
  }

  /**
   * A refused submission sends nothing: the error is the same whatever the
   * task and the file, so neither is read.
   */
  lemma RefusedSubmissionIgnoresPayload(userData: Js.JsValue, t1: Js.JsValue, f1: seq<bv8>, t2: Js.JsValue, f2: seq<bv8>)
    requires !Js.Truthy(userData) || !Js.Truthy(Js.Get(userData, "_id"))
    ensures PrepareSubmission(userData, t1, f1) == PrepareSubmission(userData, t2, f2) == Err(UserDataNotFound)
  {
  }
}
