/** Implement-to-review cycles: cohorts of delegation rows, and the cycles of one cohort. */
module QualityCycles {
  import opened Wrappers
  import opened Sets
  import opened Sublists
  import opened Sorting

  datatype Role = Implement | Fix | Review | Unclassified

  datatype Job = Job(id: string, controller: string, leaf: string, createdMs: int, role: Role, terminal: bool)

  datatype Cycle = Cycle(opener: Job, reviews: seq<Job>) {
    predicate Closed() {
      opener.terminal && forall r :: r in reviews ==> r.terminal
    }
  }

  datatype Cohort = Cohort(controller: string, leaf: string)

  predicate IsOpener(job: Job) {
    job.role == Implement || job.role == Fix
  }

  predicate IsReview(job: Job) {
    job.role == Review
  }

  function CohortOf(job: Job): Cohort {
    Cohort(job.controller, job.leaf)
  }

  function CreatedMs(job: Job): int {
    job.createdMs
  }

  function Only(rows: seq<Job>, want: Job -> bool): seq<Job> {
    if rows == [] then []
    else Only(rows[..|rows| - 1], want) + if want(rows[|rows| - 1]) then [rows[|rows| - 1]] else []
  }

  lemma OnlySnoc(rows: seq<Job>, row: Job, want: Job -> bool)
    ensures Only(rows + [row], want) == Only(rows, want) + if want(row) then [row] else []
  {
    assert (rows + [row])[..|rows|] == rows;
  }

  // ---- The cycles of one cohort -------------------------------------------------------------

  /** The last cycle with more reviews. */
  function WithReviews(cycles: seq<Cycle>, more: seq<Job>): (r: seq<Cycle>)
    requires cycles != []
    ensures |r| == |cycles|
  {
    var last := cycles[|cycles| - 1];
    cycles[..|cycles| - 1] + [last.(reviews := last.reviews + more)]
  }

  /** The simple form: an opener starts a cycle, a review joins the last one, anything else and reviews
      before the first opener are left out. */
  function Cycles(rows: seq<Job>): seq<Cycle> {
    if rows == [] then []
    else
      var earlier, row := Cycles(rows[..|rows| - 1]), rows[|rows| - 1];
      if IsOpener(row) then earlier + [Cycle(row, [])]
      else if IsReview(row) && earlier != [] then WithReviews(earlier, [row])
      else earlier
  }

  function Shown(cycles: seq<Cycle>, includeOpen: bool): seq<Cycle> {
    if cycles == [] then []
    else
      var last := cycles[|cycles| - 1];
      Shown(cycles[..|cycles| - 1], includeOpen) + if includeOpen || last.Closed() then [last] else []
  }

  /** One pass with an open cycle that is pushed when the next opener comes and at the end. */
  method BuildCyclesForRows(rows: seq<Job>, includeOpen: bool) returns (shown: seq<Cycle>)
    ensures shown == Shown(Cycles(rows), includeOpen)
  {
    var cycles: seq<Cycle> := [];
    var openImplement: Option<Job> := None;
    var openReviews: seq<Job> := [];
    for i := 0 to |rows|
      invariant openImplement.None? ==> openReviews == [] && cycles == []
      invariant Cycles(rows[..i]) == cycles
        + if openImplement.Some? then [Cycle(openImplement.value, openReviews)] else []
    {
      var row := rows[i];
      assert rows[..i + 1][..i] == rows[..i];
      if IsOpener(row) {
        if openImplement.Some? {
          cycles := cycles + [Cycle(openImplement.value, openReviews)];
        }
        openImplement, openReviews := Some(row), [];
      } else if IsReview(row) && openImplement.Some? {
        openReviews := openReviews + [row];
      }
    }
    assert rows[..|rows|] == rows;
    if openImplement.Some? {
      cycles := cycles + [Cycle(openImplement.value, openReviews)];
    }
    shown := [];
    for i := 0 to |cycles|
      invariant shown == Shown(cycles[..i], includeOpen)
    {
      assert cycles[..i + 1][..i] == cycles[..i];
      if includeOpen || cycles[i].Closed() {
        shown := shown + [cycles[i]];
      }
    }
    assert cycles[..|cycles|] == cycles;
  }

  function Openers(cycles: seq<Cycle>): (openers: seq<Job>)
    ensures |openers| == |cycles|
  {
    seq(|cycles|, i requires 0 <= i < |cycles| => cycles[i].opener)
  }

  /** Every opener starts exactly one cycle, in order. */
  lemma {:induction false} OneCyclePerOpener(rows: seq<Job>)
    ensures Openers(Cycles(rows)) == Only(rows, IsOpener)
  {
    if rows != [] {
      OneCyclePerOpener(rows[..|rows| - 1]);
    }
  }

  /** Rows that can be in a cycle: openers, and reviews after the first opener. */
  function Counted(rows: seq<Job>): seq<Job> {
    if rows == [] then []
    else
      var earlier, row := Counted(rows[..|rows| - 1]), rows[|rows| - 1];
      earlier + if IsOpener(row) || (IsReview(row) && Only(rows, IsOpener) != []) then [row] else []
  }

  function Jobs(cycles: seq<Cycle>): seq<Job> {
    if cycles == [] then []
    else Jobs(cycles[..|cycles| - 1]) + [cycles[|cycles| - 1].opener] + cycles[|cycles| - 1].reviews
  }

  /** No counted row is lost or duplicated: the cycles, read in order, are exactly the counted rows. */
  lemma {:induction false} CyclesConserve(rows: seq<Job>)
    ensures Jobs(Cycles(rows)) == Counted(rows)
  {
    if rows != [] {
      var earlier, row := Cycles(rows[..|rows| - 1]), rows[|rows| - 1];
      CyclesConserve(rows[..|rows| - 1]);
      OneCyclePerOpener(rows[..|rows| - 1]);
      if IsOpener(row) {
        assert (earlier + [Cycle(row, [])])[..|earlier|] == earlier;
        assert Jobs(earlier) + [row] + [] == Jobs(earlier) + [row];
      } else if IsReview(row) && earlier != [] {
        var rest, last := earlier[..|earlier| - 1], earlier[|earlier| - 1];
        assert (rest + [last.(reviews := last.reviews + [row])])[..|rest|] == rest;
        assert Jobs(rest) + [last.opener] + (last.reviews + [row]) == Jobs(rest) + [last.opener] + last.reviews + [row];
      }
    }
  }

  lemma WithMoreReviews(cycles: seq<Cycle>, a: seq<Job>, b: seq<Job>)
    requires cycles != []
    ensures WithReviews(WithReviews(cycles, a), b) == WithReviews(cycles, a + b)
    ensures WithReviews(cycles, []) == cycles
  {
    var last := cycles[|cycles| - 1];
    assert last.reviews + a + b == last.reviews + (a + b);
    assert last.reviews + [] == last.reviews;
  }

  lemma CyclesSnoc(rows: seq<Job>, row: Job)
    ensures Cycles(rows + [row]) ==
      if IsOpener(row) then Cycles(rows) + [Cycle(row, [])]
      else if IsReview(row) && Cycles(rows) != [] then WithReviews(Cycles(rows), [row])
      else Cycles(rows)
  {
    assert (rows + [row])[..|rows|] == rows;
  }

  lemma {:induction false} NoOpenerNoChange(before: seq<Job>, between: seq<Job>)
    requires Cycles(before) != [] && Only(between, IsOpener) == []
    ensures Cycles(before + between) == WithReviews(Cycles(before), Only(between, IsReview))
    decreases |between|
  {
    if between == [] {
      assert before + between == before;
      WithMoreReviews(Cycles(before), [], []);
    } else {
      var rest, row := between[..|between| - 1], between[|between| - 1];
      NoOpenerLast(rest, row);
      assert between == rest + [row] && before + between == before + rest + [row];
      NoOpenerNoChange(before, rest);
      NoOpenerStep(before, rest, row);
    }
  }

  lemma NoOpenerLast(rest: seq<Job>, row: Job)
    ensures Only(rest + [row], IsOpener) == [] ==> Only(rest, IsOpener) == [] && !IsOpener(row)
  {
    OnlySnoc(rest, row, IsOpener);
  }

  lemma MoreRow(cycles: seq<Cycle>, reviews: seq<Job>, row: Job)
    requires cycles != []
    ensures WithReviews(cycles, reviews + if IsReview(row) then [row] else [])
         == if IsReview(row) then WithReviews(WithReviews(cycles, reviews), [row]) else WithReviews(cycles, reviews)
  {
    if IsReview(row) {
      WithMoreReviews(cycles, reviews, [row]);
    } else {
      assert reviews + [] == reviews;
    }
  }

  lemma NoOpenerStep(before: seq<Job>, rest: seq<Job>, row: Job)
    requires Cycles(before) != [] && !IsOpener(row)
    requires Cycles(before + rest) == WithReviews(Cycles(before), Only(rest, IsReview))
    ensures Cycles(before + rest + [row]) == WithReviews(Cycles(before), Only(rest + [row], IsReview))
  {
    CyclesSnoc(before + rest, row);
    OnlySnoc(rest, row, IsReview);
    MoreRow(Cycles(before), Only(rest, IsReview), row);
  }

  /** A review joins the latest opener before it: between an opener and the next one, the reviews of that
      opener's cycle are exactly the reviews that follow it. */
  lemma ReviewsJoinLatestOpener(before: seq<Job>, opener: Job, between: seq<Job>)
    requires IsOpener(opener) && Only(between, IsOpener) == []
    ensures var cycles := Cycles(before + [opener] + between);
      cycles == Cycles(before) + [Cycle(opener, Only(between, IsReview))]
  {
    var upTo := before + [opener];
    assert upTo[..|before|] == before;
    assert Cycles(upTo) == Cycles(before) + [Cycle(opener, [])];
    NoOpenerNoChange(upTo, between);
    assert [] + Only(between, IsReview) == Only(between, IsReview);
    assert Cycles(upTo)[..|Cycles(before)|] == Cycles(before);
  }

  /** And later rows never change a finished cycle. */
  lemma {:induction false} CyclesGrow(rows: seq<Job>, opener: Job, more: seq<Job>)
    requires IsOpener(opener)
    ensures |Cycles(rows + [opener] + more)| > |Cycles(rows)|
    ensures Cycles(rows + [opener] + more)[..|Cycles(rows)|] == Cycles(rows)
    decreases |more|
  {
    if more == [] {
      assert (rows + [opener] + more)[..|rows|] == rows;
    } else {
      CyclesGrow(rows, opener, more[..|more| - 1]);
      assert (rows + [opener] + more)[..|rows + [opener] + more| - 1] == rows + [opener] + more[..|more| - 1];
    }
  }

  // ---- Cohorts ------------------------------------------------------------------------------

  /** The groups of a partition, in order of first appearance. */
  datatype Groups = Groups(order: seq<Cohort>, rows: map<Cohort, seq<Job>>)

  function OfCohort(rows: seq<Job>, c: Cohort): seq<Job> {
    if rows == [] then []
    else OfCohort(rows[..|rows| - 1], c) + if CohortOf(rows[|rows| - 1]) == c then [rows[|rows| - 1]] else []
  }

  lemma OfCohortSnoc(rows: seq<Job>, row: Job, c: Cohort)
    ensures OfCohort(rows + [row], c) == OfCohort(rows, c) + if CohortOf(row) == c then [row] else []
  {
    assert (rows + [row])[..|rows|] == rows;
  }

  ghost function CohortsOf(rows: seq<Job>): set<Cohort> {
    if rows == [] then {} else CohortsOf(rows[..|rows| - 1]) + {CohortOf(rows[|rows| - 1])}
  }

  /** Each cohort present has one group, and it holds exactly its rows in their order. */
  ghost predicate Partitions(groups: Groups, rows: seq<Job>) {
    && NoRepeats(groups.order)
    && Elements(groups.order) == groups.rows.Keys == CohortsOf(rows)
    && (forall c :: c in groups.rows ==> groups.rows[c] == OfCohort(rows, c))
  }

  /** A first row opens the group of its cohort; every row goes to the end of its group. */
  function AddJob(groups: Groups, row: Job): Groups {
    var c := CohortOf(row);
    var order := if c in groups.rows then groups.order else groups.order + [c];
    var group := if c in groups.rows then groups.rows[c] else [];
    Groups(order, groups.rows[c := group + [row]])
  }

  function Grouped(rows: seq<Job>): Groups {
    if rows == [] then Groups([], map[]) else AddJob(Grouped(rows[..|rows| - 1]), rows[|rows| - 1])
  }

  lemma {:induction false} GroupedPartitions(rows: seq<Job>)
    ensures Partitions(Grouped(rows), rows)
  {
    if rows != [] {
      GroupedPartitions(rows[..|rows| - 1]);
      PartitionStep(Grouped(rows[..|rows| - 1]), rows[..|rows| - 1], rows[|rows| - 1]);
      assert rows == rows[..|rows| - 1] + [rows[|rows| - 1]];
    }
  }

  method PartitionByCohort(rows: seq<Job>) returns (groups: Groups)
    ensures Partitions(groups, rows)
  {
    groups := Groups([], map[]);
    for i := 0 to |rows|
      invariant groups == Grouped(rows[..i])
    {
      assert rows[..i + 1][..i] == rows[..i];
      groups := AddJob(groups, rows[i]);
    }
    assert rows[..|rows|] == rows;
    GroupedPartitions(rows);
  }

  lemma {:induction false} NoneOfCohort(rows: seq<Job>, c: Cohort)
    requires c !in CohortsOf(rows)
    ensures OfCohort(rows, c) == []
  {
    if rows != [] {
      NoneOfCohort(rows[..|rows| - 1], c);
    }
  }

  lemma CohortsSnoc(rows: seq<Job>, row: Job)
    ensures CohortsOf(rows + [row]) == CohortsOf(rows) + {CohortOf(row)}
  {
    assert (rows + [row])[..|rows|] == rows;
  }

  /** The group map after one more row. */
  lemma GroupStep(byCohort: map<Cohort, seq<Job>>, rows: seq<Job>, row: Job, x: Cohort)
    requires byCohort.Keys == CohortsOf(rows)
    requires x in byCohort ==> byCohort[x] == OfCohort(rows, x)
    ensures var c := CohortOf(row);
      var group := if c in byCohort then byCohort[c] else [];
      var next := byCohort[c := group + [row]];
      x in next ==> next[x] == OfCohort(rows + [row], x)
  {
    OfCohortSnoc(rows, row, x);
    if x !in byCohort {
      NoneOfCohort(rows, x);
    }
  }

  lemma PartitionStep(groups: Groups, rows: seq<Job>, row: Job)
    requires Partitions(groups, rows)
    ensures Partitions(AddJob(groups, row), rows + [row])
  {
    var c := CohortOf(row);
    CohortsSnoc(rows, row);
    if c !in groups.rows {
      NoRepeatsSnoc(groups.order, c);
    }
    var group := if c in groups.rows then groups.rows[c] else [];
    var next := groups.rows[c := group + [row]];
    assert next.Keys == groups.rows.Keys + {c};
    forall x | x in next ensures next[x] == OfCohort(rows + [row], x) {
      GroupStep(groups.rows, rows, row, x);
    }
  }

  /** All rows of the groups, one cohort after the other. */
  ghost function Regrouped(order: seq<Cohort>, rows: seq<Job>): seq<Job> {
    if order == [] then []
    else Regrouped(order[..|order| - 1], rows) + OfCohort(rows, order[|order| - 1])
  }

  /** A row outside the cohorts changes nothing. */
  lemma {:induction false} RegroupedOutside(order: seq<Cohort>, rows: seq<Job>, row: Job)
    requires CohortOf(row) !in Elements(order)
    ensures Regrouped(order, rows + [row]) == Regrouped(order, rows)
    decreases |order|
  {
    if order != [] {
      var rest, last := order[..|order| - 1], order[|order| - 1];
      assert last in order && forall c :: c in rest ==> c in order;
      RegroupedOutside(rest, rows, row);
      OfCohortSnoc(rows, row, last);
      assert OfCohort(rows, last) + [] == OfCohort(rows, last);
    }
  }

  /** A row of one of the cohorts is added exactly once. */
  lemma {:induction false} RegroupedSnoc(order: seq<Cohort>, rows: seq<Job>, row: Job)
    requires NoRepeats(order) && CohortOf(row) in Elements(order)
    ensures multiset(Regrouped(order, rows + [row])) == multiset(Regrouped(order, rows)) + multiset{row}
    decreases |order|
  {
    var rest, last := order[..|order| - 1], order[|order| - 1];
    assert order == rest + [last];
    OfCohortSnoc(rows, row, last);
    var before, group := Regrouped(rest, rows), OfCohort(rows, last);
    if CohortOf(row) == last {
      LastOutside(rest, last);
      RegroupedOutside(rest, rows, row);
      assert before + (group + [row]) == before + group + [row];
    } else {
      assert group + [] == group;
      InEarlier(rest, last, CohortOf(row));
      RegroupedSnoc(rest, rows, row);
      OneMoreBefore(Regrouped(rest, rows + [row]), before, group, row);
    }
  }

  lemma OneMoreBefore(more: seq<Job>, before: seq<Job>, group: seq<Job>, row: Job)
    requires multiset(more) == multiset(before) + multiset{row}
    ensures multiset(more + group) == multiset(before + group) + multiset{row}
  {
  }

  lemma InEarlier(rest: seq<Cohort>, last: Cohort, c: Cohort)
    requires NoRepeats(rest + [last]) && c in Elements(rest + [last]) && c != last
    ensures NoRepeats(rest) && c in Elements(rest)
  {
    assert forall i :: 0 <= i < |rest| ==> (rest + [last])[i] == rest[i];
  }

  lemma LastOutside(rest: seq<Cohort>, last: Cohort)
    requires NoRepeats(rest + [last])
    ensures last !in Elements(rest)
  {
    assert forall i :: 0 <= i < |rest| ==> (rest + [last])[i] == rest[i] && (rest + [last])[|rest|] == last;
  }

  /** Partitioning conserves rows: the groups together are a permutation of the input. */
  lemma {:induction false} CohortsConserve(order: seq<Cohort>, rows: seq<Job>)
    requires NoRepeats(order)
    requires CohortsOf(rows) <= Elements(order)
    ensures multiset(Regrouped(order, rows)) == multiset(rows)
    decreases |rows|
  {
    if rows == [] {
      NothingRegrouped(order);
    } else {
      var rest, last := rows[..|rows| - 1], rows[|rows| - 1];
      assert rows == rest + [last];
      CohortsConserve(order, rest);
      RegroupedSnoc(order, rest, last);
    }
  }

  lemma {:induction false} NothingRegrouped(order: seq<Cohort>)
    ensures Regrouped(order, []) == []
  {
    if order != [] {
      NothingRegrouped(order[..|order| - 1]);
    }
  }

  // ---- The whole builder --------------------------------------------------------------------

  /** Cycles of each cohort in turn; a cohort's rows are put in order of creation first. */
  ghost function CohortCycles(order: seq<Cohort>, rows: seq<Job>, includeOpen: bool): seq<Cycle> {
    if order == [] then []
    else
      var last := order[|order| - 1];
      CohortCycles(order[..|order| - 1], rows, includeOpen)
        + Shown(Cycles(StableSort(OfCohort(rows, last), CreatedMs)), includeOpen)
  }

  /** The rows a query is about: all, or those of one chat or one leaf. An empty string is no filter. */
  function Asked(rows: seq<Job>, controller: string, leaf: string): seq<Job> {
    Only(rows, (job: Job) => (controller == "" || job.controller == controller) && (leaf == "" || job.leaf == leaf))
  }

  /** With a chat given its rows are one cohort; otherwise rows are split by chat and leaf. */
  method BuildQualityCycles(rows: seq<Job>, controller: string, leaf: string, includeOpen: bool)
    returns (cycles: seq<Cycle>, ghost groups: Groups)
    ensures AnswersQuery(cycles, groups, rows, controller, leaf, includeOpen)
    ensures controller == "" || leaf != "" ==> StaysInCohort(cycles)
    ensures KeepsRules(cycles, rows, controller, leaf, includeOpen)
  {
    var asked := Asked(rows, controller, leaf);
    groups := Groups([], map[]);
    if controller != "" {
      cycles := BuildCyclesForRows(StableSort(asked, CreatedMs), includeOpen);
      if leaf != "" {
        ReviewsStayInCohort(cycles, groups, rows, controller, leaf, includeOpen);
      }
      AnswerKeepsRules(cycles, groups, rows, controller, leaf, includeOpen);
      return;
    }
    var split := PartitionByCohort(asked);
    groups := split;
    cycles := [];
    for i := 0 to |split.order|
      invariant cycles == CohortCycles(split.order[..i], asked, includeOpen)
    {
      assert split.order[..i + 1][..i] == split.order[..i];
      assert split.order[i] in split.order;
      var more := BuildCyclesForRows(StableSort(split.rows[split.order[i]], CreatedMs), includeOpen);
      cycles := cycles + more;
    }
    assert split.order[..|split.order|] == split.order;
    ReviewsStayInCohort(cycles, groups, rows, controller, leaf, includeOpen);
    AnswerKeepsRules(cycles, groups, rows, controller, leaf, includeOpen);
  }

  lemma {:induction false} OfCohortMember(rows: seq<Job>, c: Cohort, job: Job)
    ensures job in OfCohort(rows, c) <==> job in rows && CohortOf(job) == c
  {
    if rows != [] {
      OfCohortMember(rows[..|rows| - 1], c, job);
      assert rows == rows[..|rows| - 1] + [rows[|rows| - 1]];
    }
  }

  lemma {:induction false} CyclesUseRows(rows: seq<Job>, cycle: Cycle)
    requires cycle in Cycles(rows)
    ensures cycle.opener in rows && forall r :: r in cycle.reviews ==> r in rows
  {
    var earlier, row := Cycles(rows[..|rows| - 1]), rows[|rows| - 1];
    assert rows == rows[..|rows| - 1] + [row];
    if cycle in earlier {
      CyclesUseRows(rows[..|rows| - 1], cycle);
    } else if !IsOpener(row) {
      var last := earlier[|earlier| - 1];
      CyclesUseRows(rows[..|rows| - 1], last);
    }
  }

  lemma {:induction false} ShownMember(cycles: seq<Cycle>, includeOpen: bool, cycle: Cycle)
    ensures cycle in Shown(cycles, includeOpen) <==> cycle in cycles && (includeOpen || cycle.Closed())
  {
    if cycles != [] {
      ShownMember(cycles[..|cycles| - 1], includeOpen, cycle);
      assert cycles == cycles[..|cycles| - 1] + [cycles[|cycles| - 1]];
    }
  }

  lemma {:induction false} CohortCyclesStay(order: seq<Cohort>, rows: seq<Job>, includeOpen: bool, cycle: Cycle)
    requires cycle in CohortCycles(order, rows, includeOpen)
    ensures forall r :: r in cycle.reviews ==> CohortOf(r) == CohortOf(cycle.opener)
    decreases |order|
  {
    var last := order[|order| - 1];
    var group := OfCohort(rows, last);
    if cycle in Shown(Cycles(StableSort(group, CreatedMs)), includeOpen) {
      forall job | job in group ensures CohortOf(job) == last {
        OfCohortMember(rows, last, job);
      }
      OneCohortStays(group, last, includeOpen, cycle);
    } else {
      CohortCyclesStay(order[..|order| - 1], rows, includeOpen, cycle);
    }
  }

  lemma OneCohortStays(group: seq<Job>, c: Cohort, includeOpen: bool, cycle: Cycle)
    requires forall job :: job in group ==> CohortOf(job) == c
    requires cycle in Shown(Cycles(StableSort(group, CreatedMs)), includeOpen)
    ensures forall r :: r in cycle.reviews ==> CohortOf(r) == CohortOf(cycle.opener)
  {
    var ordered := StableSort(group, CreatedMs);
    ShownMember(Cycles(ordered), includeOpen, cycle);
    CyclesUseRows(ordered, cycle);
    SortPermutes(group, CreatedMs);
    SameElements(ordered, group);
  }

  lemma {:induction false} OnlyMembers(rows: seq<Job>, want: Job -> bool, job: Job)
    ensures job in Only(rows, want) <==> job in rows && want(job)
  {
    if rows != [] {
      OnlyMembers(rows[..|rows| - 1], want, job);
      assert rows == rows[..|rows| - 1] + [rows[|rows| - 1]];
    }
  }

  /** The cycles of a query, as `BuildQualityCycles` returns them. */
  ghost predicate AnswersQuery(cycles: seq<Cycle>, groups: Groups, rows: seq<Job>, controller: string, leaf: string,
                               includeOpen: bool)
  {
    var asked := Asked(rows, controller, leaf);
    if controller != "" then cycles == Shown(Cycles(StableSort(asked, CreatedMs)), includeOpen)
    else Partitions(groups, asked) && cycles == CohortCycles(groups.order, asked, includeOpen)
  }

  ghost predicate StaysInCohort(cycles: seq<Cycle>) {
    forall cycle, r :: cycle in cycles && r in cycle.reviews ==> CohortOf(r) == CohortOf(cycle.opener)
  }

  /** A query without a chat, or with a chat and a leaf, never joins a review to the opener of another chat or leaf. */
  lemma ReviewsStayInCohort(cycles: seq<Cycle>, groups: Groups, rows: seq<Job>, controller: string, leaf: string,
                            includeOpen: bool)
    requires AnswersQuery(cycles, groups, rows, controller, leaf, includeOpen)
    requires controller == "" || leaf != ""
    ensures StaysInCohort(cycles)
  {
    var asked := Asked(rows, controller, leaf);
    forall cycle | cycle in cycles ensures forall r :: r in cycle.reviews ==> CohortOf(r) == CohortOf(cycle.opener) {
      if controller == "" {
        CohortCyclesStay(groups.order, asked, includeOpen, cycle);
      } else {
        AskedCohort(rows, controller, leaf);
        OneCohortStays(asked, Cohort(controller, leaf), includeOpen, cycle);
      }
    }
  }

  lemma AskedCohort(rows: seq<Job>, controller: string, leaf: string)
    requires controller != "" && leaf != ""
    ensures forall job :: job in Asked(rows, controller, leaf) ==> CohortOf(job) == Cohort(controller, leaf)
  {
    forall job | job in Asked(rows, controller, leaf) ensures CohortOf(job) == Cohort(controller, leaf) {
      var want := (job: Job) => (controller == "" || job.controller == controller) && (leaf == "" || job.leaf == leaf);
      OnlyMembers(rows, want, job);
    }
  }

  /** With a chat but no leaf given, a review of one leaf joins the opener of another. */
  lemma ChatQueryMixesLeaves(opener: Job, review: Job)
    requires opener.role == Implement && review.role == Review && opener.createdMs <= review.createdMs
    requires opener.controller == review.controller != "" && opener.leaf != review.leaf
    ensures Shown(Cycles(StableSort(Asked([opener, review], opener.controller, ""), CreatedMs)), true)
      == [Cycle(opener, [review])]
  {
    var rows := [opener] + [review];
    var want :=
      (job: Job) => (opener.controller == "" || job.controller == opener.controller) && ("" == "" || job.leaf == "");
    OnlySnoc([], opener, want);
    OnlySnoc([opener], review, want);
    assert [] + [opener] == [opener];
    assert Only(rows, want) == rows == [opener, review];
    assert rows[..1] == [opener] && [opener][..0] == [];
    assert StableSort([opener], CreatedMs) == [opener];
    assert StableSort(rows, CreatedMs) == rows;
    ReviewsJoinLatestOpener([], opener, [review]);
    assert [review][..0] == [];
    assert Only([review], IsReview) == [review] && Only([review], IsOpener) == [];
    assert [] + [opener] + [review] == rows;
    assert [Cycle(opener, [review])][..0] == [];
  }

  /** Over all rows, exactly the queries without a chat and those with a leaf keep reviews in their cohort. */
  lemma StaysInCohortExactly(controller: string, leaf: string)
    ensures (forall cycles, groups, rows, includeOpen ::
        AnswersQuery(cycles, groups, rows, controller, leaf, includeOpen) ==> StaysInCohort(cycles))
       <==> controller == "" || leaf != ""
  {
    if controller == "" || leaf != "" {
      forall cycles, groups, rows, includeOpen | AnswersQuery(cycles, groups, rows, controller, leaf, includeOpen)
        ensures StaysInCohort(cycles)
      {
        ReviewsStayInCohort(cycles, groups, rows, controller, leaf, includeOpen);
      }
    } else {
      MixedQuery(controller);
    }
  }

  lemma MixedCycles(opener: Job, review: Job) returns (cycles: seq<Cycle>)
    requires opener.role == Implement && review.role == Review && opener.createdMs <= review.createdMs
    requires opener.controller == review.controller != "" && opener.leaf != review.leaf
    ensures AnswersQuery(cycles, Groups([], map[]), [opener, review], opener.controller, "", true)
      && !StaysInCohort(cycles)
  {
    ChatQueryMixesLeaves(opener, review);
    cycles := [Cycle(opener, [review])];
    assert cycles[0] in cycles && review in cycles[0].reviews && CohortOf(review) != CohortOf(opener);
  }

  lemma MixedQuery(controller: string)
    requires controller != ""
    ensures exists cycles, groups, rows, includeOpen ::
      AnswersQuery(cycles, groups, rows, controller, "", includeOpen) && !StaysInCohort(cycles)
  {
    assert "a"[0] != "b"[0];
    var cycles :=
      MixedCycles(Job("1", controller, "a", 1, Implement, true), Job("2", controller, "b", 2, Review, true));
  }

  // ---- What the cycles say about the jobs ---------------------------------------------------

  /** The query is about the job. */
  predicate Concerns(job: Job, controller: string, leaf: string) {
    (controller != "" ==> job.controller == controller) && (leaf != "" ==> job.leaf == leaf)
  }

  predicate Opens(job: Job) {
    job.role in {Implement, Fix}
  }

  /** Both jobs are counted together: always under a given chat, else when chat and leaf agree. */
  predicate Together(a: Job, b: Job, controller: string) {
    controller != "" || (a.controller == b.controller && a.leaf == b.leaf)
  }

  /** Another implement or fix job that is counted together with this one. */
  predicate Rival(o: Job, job: Job, rows: seq<Job>, controller: string, leaf: string) {
    o in rows && Concerns(o, controller, leaf) && Opens(o) && Together(o, job, controller)
  }

  ghost predicate HasCycle(cycles: seq<Cycle>, o: Job) {
    exists c :: c in cycles && c.opener == o
  }

  ghost predicate HasReview(cycles: seq<Cycle>, r: Job) {
    exists c :: c in cycles && r in c.reviews
  }

  /** A cycle is an implement or fix job of the query with later reviews, and no other such job came between it and
      one of its reviews. Without `includeOpen` all of its jobs have ended. */
  ghost predicate FairCycle(cycle: Cycle, rows: seq<Job>, controller: string, leaf: string, includeOpen: bool) {
    && cycle.opener in rows && Concerns(cycle.opener, controller, leaf) && Opens(cycle.opener)
    && (forall r :: r in cycle.reviews ==>
          r in rows && Concerns(r, controller, leaf) && r.role == Review && cycle.opener.createdMs <= r.createdMs)
    && (forall r, o :: r in cycle.reviews && Rival(o, cycle.opener, rows, controller, leaf) ==>
          !(cycle.opener.createdMs < o.createdMs < r.createdMs))
    && (!includeOpen ==> cycle.opener.terminal && forall r :: r in cycle.reviews ==> r.terminal)
  }

  /** With the open cycles every implement or fix job has its cycle, and every review after one is in a cycle. */
  ghost predicate NobodyMissing(cycles: seq<Cycle>, rows: seq<Job>, controller: string, leaf: string) {
    && (forall o :: o in rows && Concerns(o, controller, leaf) && Opens(o) ==> HasCycle(cycles, o))
    && (forall o, r ::
        r in rows && Concerns(r, controller, leaf) && r.role == Review && Rival(o, r, rows, controller, leaf) ==>
          o.createdMs < r.createdMs ==> HasReview(cycles, r))
  }

  ghost predicate KeepsRules(cycles: seq<Cycle>, rows: seq<Job>, controller: string, leaf: string, includeOpen: bool) {
    && (forall cycle :: cycle in cycles ==> FairCycle(cycle, rows, controller, leaf, includeOpen))
    && (includeOpen ==> NobodyMissing(cycles, rows, controller, leaf))
  }

  /** The same for the cycles of one sorted list. */
  ghost predicate FairIn(cycle: Cycle, rows: seq<Job>) {
    && cycle.opener in rows && Opens(cycle.opener)
    && (forall r :: r in cycle.reviews ==> r in rows && r.role == Review && cycle.opener.createdMs <= r.createdMs)
    && (forall r, o :: r in cycle.reviews && o in rows && Opens(o) ==>
          !(cycle.opener.createdMs < o.createdMs < r.createdMs))
  }

  ghost predicate AllFair(cycles: seq<Cycle>, rows: seq<Job>) {
    forall cycle :: cycle in cycles ==> FairIn(cycle, rows)
  }

  ghost predicate AllIn(cycles: seq<Cycle>, rows: seq<Job>) {
    && (forall o :: o in rows && Opens(o) ==> HasCycle(cycles, o))
    && (forall o, r :: o in rows && Opens(o) && r in rows && r.role == Review && o.createdMs < r.createdMs ==>
          HasReview(cycles, r))
  }

  /** The last cycle belongs to the latest opener. */
  ghost predicate LastIsLatest(cycles: seq<Cycle>, rows: seq<Job>) {
    forall o :: o in rows && Opens(o) ==> cycles != [] && o.createdMs <= cycles[|cycles| - 1].opener.createdMs
  }

  lemma RestSorted(rest: seq<Job>, last: Job)
    requires IsSorted(rest + [last], CreatedMs)
    ensures IsSorted(rest, CreatedMs) && forall r :: r in rest ==> r.createdMs <= last.createdMs
  {
    var rows := rest + [last];
    forall i, j | 0 <= i < j < |rest| ensures CreatedMs(rest[i]) <= CreatedMs(rest[j]) {
      assert CreatedMs(rows[i]) <= CreatedMs(rows[j]);
    }
    forall r | r in rest ensures r.createdMs <= last.createdMs {
      var i :| 0 <= i < |rest| && rest[i] == r;
      assert CreatedMs(rows[i]) <= CreatedMs(rows[|rest|]);
    }
  }

  lemma {:induction false} CyclesAreFair(rows: seq<Job>)
    requires IsSorted(rows, CreatedMs)
    ensures AllFair(Cycles(rows), rows) && AllIn(Cycles(rows), rows) && LastIsLatest(Cycles(rows), rows)
  {
    if rows != [] {
      var rest, last := rows[..|rows| - 1], rows[|rows| - 1];
      assert rows == rest + [last];
      RestSorted(rest, last);
      CyclesAreFair(rest);
      FairStep(rest, last);
      InStep(rest, last);
    }
  }

  lemma FairStep(rest: seq<Job>, last: Job)
    requires (forall r :: r in rest ==> r.createdMs <= last.createdMs)
    requires AllFair(Cycles(rest), rest) && LastIsLatest(Cycles(rest), rest)
    ensures AllFair(Cycles(rest + [last]), rest + [last]) && LastIsLatest(Cycles(rest + [last]), rest + [last])
  {
    var rows, before := rest + [last], Cycles(rest);
    CyclesSnoc(rest, last);
    forall cycle | cycle in before ensures FairIn(cycle, rows) {
      FairLater(cycle, rest, last);
    }
    if IsOpener(last) {
      assert FairIn(Cycle(last, []), rows);
    } else if IsReview(last) && before != [] {
      var joined := before[|before| - 1];
      assert joined in before && FairIn(joined, rows);
      JoinedFair(joined, rest, last);
    }
  }

  lemma FairLater(cycle: Cycle, rest: seq<Job>, last: Job)
    requires FairIn(cycle, rest) && forall r :: r in rest ==> r.createdMs <= last.createdMs
    ensures FairIn(cycle, rest + [last])
  {
    assert forall r :: r in cycle.reviews ==> r in rest && r.createdMs <= last.createdMs;
  }

  lemma JoinedFair(cycle: Cycle, rest: seq<Job>, last: Job)
    requires FairIn(cycle, rest + [last]) && IsReview(last) && cycle.opener in rest
      && cycle.opener.createdMs <= last.createdMs
    requires forall o :: o in rest && Opens(o) ==> o.createdMs <= cycle.opener.createdMs
    ensures FairIn(cycle.(reviews := cycle.reviews + [last]), rest + [last])
  {
    assert !Opens(last);
  }

  lemma InStep(rest: seq<Job>, last: Job)
    requires AllIn(Cycles(rest), rest) && forall r :: r in rest ==> r.createdMs <= last.createdMs
    ensures AllIn(Cycles(rest + [last]), rest + [last])
  {
    var rows, after := rest + [last], Cycles(rest + [last]);
    forall o | o in rows && Opens(o) ensures HasCycle(after, o) {
      OpenerIn(rest, last, o);
    }
    forall o, r | o in rows && Opens(o) && r in rows && r.role == Review && o.createdMs < r.createdMs
      ensures HasReview(after, r)
    {
      ReviewIn(rest, last, o, r);
    }
  }

  lemma OpenerIn(rest: seq<Job>, last: Job, o: Job)
    requires AllIn(Cycles(rest), rest) && o in rest + [last] && Opens(o)
    ensures HasCycle(Cycles(rest + [last]), o)
  {
    var before, after := Cycles(rest), Cycles(rest + [last]);
    CyclesSnoc(rest, last);
    if o in rest {
      var c :| c in before && c.opener == o;
      var d := KeptCycle(before, last, after, c);
    } else {
      assert after[|before|] == Cycle(last, []) && after[|before|] in after;
    }
  }

  lemma ReviewIn(rest: seq<Job>, last: Job, o: Job, r: Job)
    requires AllIn(Cycles(rest), rest) && (forall x :: x in rest ==> x.createdMs <= last.createdMs)
    requires o in rest + [last] && Opens(o) && r in rest + [last] && r.role == Review && o.createdMs < r.createdMs
    ensures HasReview(Cycles(rest + [last]), r)
  {
    var before, after := Cycles(rest), Cycles(rest + [last]);
    CyclesSnoc(rest, last);
    assert o in rest;
    if r in rest {
      assert HasReview(before, r);
      var c :| c in before && r in c.reviews;
      var d := KeptCycle(before, last, after, c);
    } else {
      assert HasCycle(before, o);
      assert r in after[|after| - 1].reviews && after[|after| - 1] in after;
    }
  }

  /** A cycle is still there after one more row, perhaps with one more review. */
  lemma KeptCycle(before: seq<Cycle>, last: Job, after: seq<Cycle>, c: Cycle) returns (d: Cycle)
    requires c in before
    requires after == if IsOpener(last) then before + [Cycle(last, [])]
                      else if IsReview(last) && before != [] then WithReviews(before, [last]) else before
    ensures d in after && d.opener == c.opener && forall r :: r in c.reviews ==> r in d.reviews
  {
    var i :| 0 <= i < |before| && before[i] == c;
    d := after[i];
  }

  /** One group of the answer: the jobs of a list, sorted, in cycles. */
  lemma GroupKeepsRules(group: seq<Job>, includeOpen: bool)
    ensures var shown := Shown(Cycles(StableSort(group, CreatedMs)), includeOpen);
      && AllFair(shown, group) && (includeOpen ==> AllIn(shown, group)) && (!includeOpen ==> AllEnded(shown))
  {
    var ordered := StableSort(group, CreatedMs);
    SortSorts(group, CreatedMs);
    SortPermutes(group, CreatedMs);
    SameElements(ordered, group);
    CyclesAreFair(ordered);
    FairElsewhere(Cycles(ordered), ordered, group);
    ShownFair(Cycles(ordered), includeOpen, group);
  }

  ghost predicate AllEnded(cycles: seq<Cycle>) {
    forall c :: c in cycles ==> c.opener.terminal && forall r :: r in c.reviews ==> r.terminal
  }

  lemma ShownFair(cycles: seq<Cycle>, includeOpen: bool, rows: seq<Job>)
    requires AllFair(cycles, rows) && AllIn(cycles, rows)
    ensures AllFair(Shown(cycles, includeOpen), rows)
    ensures if includeOpen then AllIn(Shown(cycles, includeOpen), rows) else AllEnded(Shown(cycles, includeOpen))
  {
    if includeOpen {
      ShownAll(cycles);
    } else {
      forall c | c in Shown(cycles, false) ensures c in cycles && c.Closed() {
        ShownMember(cycles, false, c);
      }
    }
  }

  lemma FairElsewhere(cycles: seq<Cycle>, a: seq<Job>, b: seq<Job>)
    requires (forall x :: x in a <==> x in b) && AllFair(cycles, a) && AllIn(cycles, a)
    ensures AllFair(cycles, b) && AllIn(cycles, b)
  {
  }

  lemma AskedMember(rows: seq<Job>, controller: string, leaf: string, job: Job)
    ensures job in Asked(rows, controller, leaf) <==> job in rows && Concerns(job, controller, leaf)
  {
    var want := (job: Job) => (controller == "" || job.controller == controller) && (leaf == "" || job.leaf == leaf);
    OnlyMembers(rows, want, job);
  }

  lemma {:induction false} CohortCycleFrom(order: seq<Cohort>, asked: seq<Job>, includeOpen: bool, cycle: Cycle)
    returns (c: Cohort)
    requires cycle in CohortCycles(order, asked, includeOpen)
    ensures c in order && cycle in Shown(Cycles(StableSort(OfCohort(asked, c), CreatedMs)), includeOpen)
    decreases |order|
  {
    c := order[|order| - 1];
    if cycle !in Shown(Cycles(StableSort(OfCohort(asked, c), CreatedMs)), includeOpen) {
      c := CohortCycleFrom(order[..|order| - 1], asked, includeOpen, cycle);
    }
  }

  lemma {:induction false} CohortCycleIn(order: seq<Cohort>, asked: seq<Job>, includeOpen: bool, c: Cohort,
                                         cycle: Cycle)
    requires c in order && cycle in Shown(Cycles(StableSort(OfCohort(asked, c), CreatedMs)), includeOpen)
    ensures cycle in CohortCycles(order, asked, includeOpen)
    decreases |order|
  {
    if c != order[|order| - 1] {
      assert order == order[..|order| - 1] + [order[|order| - 1]];
      CohortCycleIn(order[..|order| - 1], asked, includeOpen, c, cycle);
    }
  }

  lemma {:induction false} CohortListed(rows: seq<Job>, job: Job)
    requires job in rows
    ensures CohortOf(job) in CohortsOf(rows)
  {
    assert rows == rows[..|rows| - 1] + [rows[|rows| - 1]];
    if job != rows[|rows| - 1] {
      CohortListed(rows[..|rows| - 1], job);
    }
  }

  /** The rows of one group are those of the query that are counted together. */
  lemma GroupFair(cycle: Cycle, group: seq<Job>, rows: seq<Job>, controller: string, leaf: string, includeOpen: bool)
    requires FairIn(cycle, group)
    requires forall job :: job in group ==> job in rows && Concerns(job, controller, leaf)
    requires forall o :: o in rows && Concerns(o, controller, leaf) && Together(o, cycle.opener, controller) ==>
      o in group
    requires !includeOpen ==> cycle.opener.terminal && forall r :: r in cycle.reviews ==> r.terminal
    ensures FairCycle(cycle, rows, controller, leaf, includeOpen)
  {
  }

  lemma OneCohortRules(cycles: seq<Cycle>, rows: seq<Job>, controller: string, leaf: string, includeOpen: bool)
    requires controller != ""
    requires cycles == Shown(Cycles(StableSort(Asked(rows, controller, leaf), CreatedMs)), includeOpen)
    ensures KeepsRules(cycles, rows, controller, leaf, includeOpen)
  {
    var asked := Asked(rows, controller, leaf);
    GroupKeepsRules(asked, includeOpen);
    forall job ensures job in asked <==> job in rows && Concerns(job, controller, leaf) {
      AskedMember(rows, controller, leaf, job);
    }
    forall cycle | cycle in cycles ensures FairCycle(cycle, rows, controller, leaf, includeOpen) {
      GroupFair(cycle, asked, rows, controller, leaf, includeOpen);
    }
  }

  lemma ManyCohortsFair(cycles: seq<Cycle>, order: seq<Cohort>, rows: seq<Job>, leaf: string, includeOpen: bool)
    requires cycles == CohortCycles(order, Asked(rows, "", leaf), includeOpen)
    ensures forall cycle :: cycle in cycles ==> FairCycle(cycle, rows, "", leaf, includeOpen)
  {
    var asked := Asked(rows, "", leaf);
    forall cycle | cycle in cycles ensures FairCycle(cycle, rows, "", leaf, includeOpen) {
      var c := CohortCycleFrom(order, asked, includeOpen, cycle);
      var group := OfCohort(asked, c);
      GroupKeepsRules(group, includeOpen);
      forall job ensures job in group <==> job in rows && Concerns(job, "", leaf) && CohortOf(job) == c {
        OfCohortMember(asked, c, job);
        AskedMember(rows, "", leaf, job);
      }
      GroupFair(cycle, group, rows, "", leaf, includeOpen);
    }
  }

  lemma ManyCohortsComplete(cycles: seq<Cycle>, groups: Groups, rows: seq<Job>, leaf: string)
    requires Partitions(groups, Asked(rows, "", leaf))
    requires cycles == CohortCycles(groups.order, Asked(rows, "", leaf), true)
    ensures NobodyMissing(cycles, rows, "", leaf)
  {
    forall o | o in rows && Concerns(o, "", leaf) && Opens(o) ensures HasCycle(cycles, o) {
      var shown := GroupOf(cycles, groups, rows, leaf, o);
      var c :| c in shown && c.opener == o;
    }
    forall o, r | (r in rows && Concerns(r, "", leaf) && r.role == Review
                   && Rival(o, r, rows, "", leaf) && o.createdMs < r.createdMs)
      ensures HasReview(cycles, r)
    {
      var shown := GroupOf(cycles, groups, rows, leaf, o);
      assert HasReview(shown, r);
      var c :| c in shown && r in c.reviews;
    }
  }

  /** The cycles of the group of one job, all of which are in the answer. */
  lemma GroupOf(cycles: seq<Cycle>, groups: Groups, rows: seq<Job>, leaf: string, o: Job) returns (shown: seq<Cycle>)
    requires Partitions(groups, Asked(rows, "", leaf))
    requires cycles == CohortCycles(groups.order, Asked(rows, "", leaf), true)
    requires o in rows && Concerns(o, "", leaf) && Opens(o)
    ensures (forall c :: c in shown ==> c in cycles) && HasCycle(shown, o)
    ensures forall r | r in rows && Concerns(r, "", leaf) && r.role == Review && Together(o, r, "") ::
      o.createdMs < r.createdMs ==> HasReview(shown, r)
  {
    var asked, cohort := Asked(rows, "", leaf), CohortOf(o);
    var group := OfCohort(asked, cohort);
    shown := Shown(Cycles(StableSort(group, CreatedMs)), true);
    GroupKeepsRules(group, true);
    forall job ensures job in group <==> job in rows && Concerns(job, "", leaf) && CohortOf(job) == cohort {
      OfCohortMember(asked, cohort, job);
      AskedMember(rows, "", leaf, job);
    }
    AskedMember(rows, "", leaf, o);
    CohortListed(asked, o);
    assert cohort in Elements(groups.order);
    forall c | c in shown ensures c in cycles {
      CohortCycleIn(groups.order, asked, true, cohort, c);
    }
  }

  /** What an answer says of the jobs themselves. */
  lemma AnswerKeepsRules(cycles: seq<Cycle>, groups: Groups, rows: seq<Job>, controller: string, leaf: string,
                         includeOpen: bool)
    requires AnswersQuery(cycles, groups, rows, controller, leaf, includeOpen)
    ensures KeepsRules(cycles, rows, controller, leaf, includeOpen)
  {
    if controller != "" {
      OneCohortRules(cycles, rows, controller, leaf, includeOpen);
    } else {
      ManyCohortsFair(cycles, groups.order, rows, leaf, includeOpen);
      if includeOpen {
        ManyCohortsComplete(cycles, groups, rows, leaf);
      }
    }
  }

  lemma {:induction false} ShownIsSublist(cycles: seq<Cycle>)
    ensures IsSublist(Shown(cycles, false), cycles, HasEnded)
  {
    if cycles == [] {
      SublistEmpty(HasEnded);
    } else {
      var rest, last := cycles[..|cycles| - 1], cycles[|cycles| - 1];
      ShownIsSublist(rest);
      SublistSnoc(Shown(rest, false), rest, last, HasEnded);
      assert cycles == rest + [last];
    }
  }

  predicate HasEnded(cycle: Cycle) {
    cycle.opener.terminal && forall r :: r in cycle.reviews ==> r.terminal
  }

  /** Without `includeOpen` the answer for a chat is the ended cycles of the full answer, in the same order. */
  lemma ClosedAreShown(all: seq<Cycle>, closed: seq<Cycle>, groups: Groups, rows: seq<Job>, controller: string,
                       leaf: string)
    requires controller != ""
    requires AnswersQuery(all, groups, rows, controller, leaf, true)
      && AnswersQuery(closed, groups, rows, controller, leaf, false)
    ensures IsSublist(closed, all, HasEnded)
  {
    var cycles := Cycles(StableSort(Asked(rows, controller, leaf), CreatedMs));
    ShownAll(cycles);
    ShownIsSublist(cycles);
  }

  lemma {:induction false} ShownAll(cycles: seq<Cycle>)
    ensures Shown(cycles, true) == cycles
  {
    if cycles != [] {
      ShownAll(cycles[..|cycles| - 1]);
    }
  }
}
