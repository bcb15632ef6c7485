/** Contextual procedure summaries and their subsumption-aware merge, src/analysis/interproc/query.rs. */
module Summaries {
  import opened Formulas
  import opened Semantics
  import opened Oracles

  /** The two kinds of summary. Implications run in opposite directions for them. */
  datatype Kind = NotMay | Must

  /** A pre/post pair: a summary, or a query read as one. */
  datatype Contract = Contract(pre: Formula, post: Formula)

  datatype Subsumption = Covers | DoesNotCover | OracleUnknown

  /** An oracle error, or a value. */
  datatype Result<+T> = Ok(value: T) | Error

  // ---- Subsumption --------------------------------------------------------------------------

  /** `implies_with_shortcuts`; `k` counts the oracle queries asked so far. */
  function ImpliesWithShortcuts(oracle: Oracle, k: nat, lhs: Formula, rhs: Formula): Result<Subsumption> {
    if lhs == rhs || lhs == False || rhs == True then Ok(Covers)
    else
      match oracle(k, Refutation(lhs, rhs))
      case Failed => Error
      case Answered(Infeasible) => Ok(Covers)
      case Answered(Feasible) => Ok(DoesNotCover)
      case Answered(Unknown) => Ok(OracleUnknown)
  }

  /** `notmay_covers` and `must_covers`. */
  function CoversQuery(kind: Kind, oracle: Oracle, k: nat, summary: Contract, query: Contract): Result<Subsumption> {
    var pre := if kind == NotMay then ImpliesWithShortcuts(oracle, k, query.pre, summary.pre)
               else ImpliesWithShortcuts(oracle, k, summary.pre, query.pre);
    if pre != Ok(Covers) then pre
    else if kind == NotMay then ImpliesWithShortcuts(oracle, k + 1, query.post, summary.post)
    else ImpliesWithShortcuts(oracle, k + 1, summary.post, query.post)
  }

  ghost predicate Covered(kind: Kind, summary: Contract, query: Contract) {
    if kind == NotMay then Entails(query.pre, summary.pre) && Entails(query.post, summary.post)
    else Entails(summary.pre, query.pre) && Entails(summary.post, query.post)
  }

  lemma ShortcutsTruthful(oracle: Oracle, k: nat, lhs: Formula, rhs: Formula)
    requires Truthful(oracle)
    ensures ImpliesWithShortcuts(oracle, k, lhs, rhs) == Ok(Covers) ==> Entails(lhs, rhs)
    ensures ImpliesWithShortcuts(oracle, k, lhs, rhs) == Ok(DoesNotCover) ==> !Entails(lhs, rhs)
  {
    RefutationMeaning(oracle, k, lhs, rhs);
  }

  /** A positive answer is right, and a negative one too; a decisive oracle gives one of them. */
  lemma CoversTruthful(kind: Kind, oracle: Oracle, k: nat, summary: Contract, query: Contract)
    requires Truthful(oracle)
    ensures CoversQuery(kind, oracle, k, summary, query) == Ok(Covers) ==> Covered(kind, summary, query)
    ensures CoversQuery(kind, oracle, k, summary, query) == Ok(DoesNotCover) ==> !Covered(kind, summary, query)
    ensures Decisive(oracle) ==>
              (CoversQuery(kind, oracle, k, summary, query) == Ok(Covers) <==> Covered(kind, summary, query))
  {
    if kind == NotMay {
      ShortcutsTruthful(oracle, k, query.pre, summary.pre);
      ShortcutsTruthful(oracle, k + 1, query.post, summary.post);
      DecisiveShortcuts(oracle, k, query.pre, summary.pre);
      DecisiveShortcuts(oracle, k + 1, query.post, summary.post);
    } else {
      ShortcutsTruthful(oracle, k, summary.pre, query.pre);
      ShortcutsTruthful(oracle, k + 1, summary.post, query.post);
      DecisiveShortcuts(oracle, k, summary.pre, query.pre);
      DecisiveShortcuts(oracle, k + 1, summary.post, query.post);
    }
  }

  lemma DecisiveShortcuts(oracle: Oracle, k: nat, lhs: Formula, rhs: Formula)
    ensures Decisive(oracle) ==> ImpliesWithShortcuts(oracle, k, lhs, rhs) in {Ok(Covers), Ok(DoesNotCover)}
  {
    if Decisive(oracle) {
      var answer := oracle(k, Refutation(lhs, rhs));
      assert answer == Answered(Infeasible) || answer == Answered(Feasible);
    }
  }

  lemma CoveredTransitive(kind: Kind, a: Contract, b: Contract, c: Contract)
    requires Covered(kind, a, b) && Covered(kind, b, c)
    ensures Covered(kind, a, c)
  {
  }

  // ---- What summaries promise ---------------------------------------------------------------

  /** A procedure's input/output relation. */
  type Relation = (State, State) -> bool

  /** NotMay: no run from `pre` ends in `post`. Must: some run from `pre` ends in `post`. */
  ghost predicate Valid(kind: Kind, runs: Relation, c: Contract) {
    if kind == NotMay then forall s, t :: runs(s, t) && Eval(c.pre, s) ==> !Eval(c.post, t)
    else exists s, t :: runs(s, t) && Eval(c.pre, s) && Eval(c.post, t)
  }

  /** A covering summary answers the query, each kind in its own implication direction. */
  lemma CoveredAnswers(kind: Kind, runs: Relation, summary: Contract, query: Contract)
    requires Covered(kind, summary, query) && Valid(kind, runs, summary)
    ensures Valid(kind, runs, query)
  {
    if kind == Must {
      var s, t :| runs(s, t) && Eval(summary.pre, s) && Eval(summary.post, t);
      assert runs(s, t) && Eval(query.pre, s) && Eval(query.post, t);
    }
  }

  // ---- Merging ------------------------------------------------------------------------------

  ghost predicate CoveredBy(kind: Kind, entries: seq<Contract>, query: Contract) {
    exists i :: 0 <= i < |entries| && Covered(kind, entries[i], query)
  }

  /** No entry covers another. */
  ghost predicate Antichain(kind: Kind, entries: seq<Contract>) {
    forall i, j :: 0 <= i < |entries| && 0 <= j < |entries| && i != j ==> !Covered(kind, entries[i], entries[j])
  }

  /** The oracle never fails; it may still answer Unknown. */
  ghost predicate Answering(oracle: Oracle) {
    forall k, f :: oracle(k, f).Answered?
  }

  /** The subsumption question as the tables use it: does the first contract cover the second? */
  type Judge = (nat, Contract, Contract) -> Result<bool>

  function JudgeOf(kind: Kind, oracle: Oracle): Judge {
    (k: nat, summary: Contract, query: Contract) =>
      match CoversQuery(kind, oracle, k, summary, query)
      case Error => Error
      case Ok(answer) => Ok(answer == Covers)
  }

  /** A positive answer is right. */
  ghost predicate Sound(judge: Judge, kind: Kind) {
    forall k, a, b :: judge(k, a, b) == Ok(true) ==> Covered(kind, a, b)
  }

  /** A negative answer is right. */
  ghost predicate Sharp(judge: Judge, kind: Kind) {
    forall k, a, b :: judge(k, a, b) == Ok(false) ==> !Covered(kind, a, b)
  }

  ghost predicate Total(judge: Judge) {
    forall k, a, b :: judge(k, a, b).Ok?
  }

  lemma JudgeMeaning(kind: Kind, oracle: Oracle)
    ensures Truthful(oracle) ==> Sound(JudgeOf(kind, oracle), kind)
    ensures Truthful(oracle) && Decisive(oracle) ==> Sharp(JudgeOf(kind, oracle), kind)
    ensures Answering(oracle) ==> Total(JudgeOf(kind, oracle))
  {
    if Truthful(oracle) {
      forall k: nat, a, b
        ensures CoversQuery(kind, oracle, k, a, b) == Ok(Covers) ==> Covered(kind, a, b)
        ensures Decisive(oracle) ==> (CoversQuery(kind, oracle, k, a, b) == Ok(Covers) <==> Covered(kind, a, b))
      {
        CoversTruthful(kind, oracle, k, a, b);
      }
    }
  }

  /** Every entry is asked about and none is found to cover the query. */
  ghost predicate SearchMisses(judge: Judge, entries: seq<Contract>, query: Contract, asked: nat) {
    forall i | 0 <= i < |entries| :: judge(asked + 2 * i, entries[i], query) == Ok(false)
  }

  /** A replacement query fails. */
  ghost predicate ReplacementFails(judge: Judge, entries: seq<Contract>, new_: Contract, asked: nat) {
    exists i :: 0 <= i < |entries| && judge(asked + 2 * i, new_, entries[i]) == Error
  }

  /** Is the query covered by an entry? The loop of the lookups and of the first half of a merge. */
  method FindCovering(judge: Judge, entries: seq<Contract>, query: Contract, asked: nat, ghost kind: Kind)
    returns (hit: Result<Option<Contract>>, k: nat)
    ensures hit.Ok? && hit.value.Some? && Sound(judge, kind) ==>
              hit.value.value in entries && Covered(kind, hit.value.value, query)
    ensures hit == Ok(None) && Sharp(judge, kind) ==> !CoveredBy(kind, entries, query)
    ensures hit == Ok(None) <==> SearchMisses(judge, entries, query, asked)
    ensures hit == Ok(None) ==> k == asked + 2 * |entries|
    ensures Total(judge) ==> hit.Ok?
  {
    k := asked;
    for i := 0 to |entries|
      invariant k == asked + 2 * i
      invariant forall j | 0 <= j < i :: judge(asked + 2 * j, entries[j], query) == Ok(false)
    {
      var answer := judge(k, entries[i], query);
      if answer.Error? {
        return Error, k;
      }
      if answer.value {
        return Ok(Some(entries[i])), k;
      }
      k := k + 2;
    }
    hit := Ok(None);
  }

  /** The entries that the new one is not found to cover, in order; an oracle error at any of them
      ends the replacement. */
  method Uncovered(judge: Judge, entries: seq<Contract>, new_: Contract, asked: nat, ghost kind: Kind)
    returns (kept: Result<seq<Contract>>)
    ensures kept.Error? <==> ReplacementFails(judge, entries, new_, asked)
    ensures kept.Ok? ==> forall e | e in kept.value :: e in entries
    ensures kept.Ok? && Sound(judge, kind) ==> forall e | e in entries :: e in kept.value || Covered(kind, new_, e)
    ensures kept.Ok? && Sharp(judge, kind) ==>
              (forall e | e in kept.value :: !Covered(kind, new_, e))
              && (Antichain(kind, entries) ==> Antichain(kind, kept.value))
  {
    var list: seq<Contract> := [];
    ghost var from: seq<nat> := [];
    var k := asked;
    for i := 0 to |entries|
      invariant k == asked + 2 * i
      invariant forall j | 0 <= j < i :: judge(asked + 2 * j, new_, entries[j]).Ok?
      invariant |from| == |list| && forall j | 0 <= j < |list| :: from[j] < i && list[j] == entries[from[j]]
      invariant forall a, b :: 0 <= a < b < |from| ==> from[a] < from[b]
      invariant Sound(judge, kind) ==> forall j | 0 <= j < i :: entries[j] in list || Covered(kind, new_, entries[j])
      invariant Sharp(judge, kind) ==> forall j | 0 <= j < |list| :: !Covered(kind, new_, list[j])
    {
      var answer := judge(k, new_, entries[i]);
      if answer.Error? {
        return Error;
      }
      if !answer.value {
        list, from := list + [entries[i]], from + [i];
      }
      k := k + 2;
    }
    kept := Ok(list);
  }

  /** `Lost` is an oracle error: during the search for a covering entry nothing has changed yet,
      but the replacement drains the entries before it asks, so an error there leaves none. */
  datatype Merge = Kept(entries: seq<Contract>) | Discarded | Lost(searching: bool)

  /** Exactly when a merge loses the entries: the search comes through without a hit and one of the
      replacement queries after it fails. */
  ghost predicate Loses(judge: Judge, entries: seq<Contract>, new_: Contract, asked: nat) {
    SearchMisses(judge, entries, new_, asked) && ReplacementFails(judge, entries, new_, asked + 2 * |entries|)
  }

  /** A table with one entry, which a merge loses: the oracle answers Unknown twice, while the
      search asks about the entry, and fails when the replacement asks. */
  lemma MergeLosesEntry(kind: Kind)
    ensures var a, b := FVar(Var("a", BoolSort)), FVar(Var("b", BoolSort));
            var oracle: Oracle := (k, f) => if k < 2 then Answered(Unknown) else Failed;
            Truthful(oracle) && Loses(JudgeOf(kind, oracle), [Contract(a, a)], Contract(b, b), 0)
  {
    var a, b := FVar(Var("a", BoolSort)), FVar(Var("b", BoolSort));
    var oracle: Oracle := (k, f) => if k < 2 then Answered(Unknown) else Failed;
    var entries, new_ := [Contract(a, a)], Contract(b, b);
    assert CoversQuery(kind, oracle, 0, entries[0], new_) == Ok(OracleUnknown);
    assert CoversQuery(kind, oracle, 2, new_, entries[0]) == Error;
    assert JudgeOf(kind, oracle)(0, entries[0], new_) == Ok(false);
    assert JudgeOf(kind, oracle)(2, new_, entries[0]) == Error;
  }

  function Remaining(merge: Merge, entries: seq<Contract>): seq<Contract> {
    match merge
    case Kept(list) => list
    case Discarded => entries
    case Lost(searching) => if searching then entries else []
  }

  /** What a merge that came through does to coverage: everything that the old entries or the new
      one covered stays covered, and nothing else becomes so. */
  ghost predicate CoverageKept(kind: Kind, before: seq<Contract>, new_: Contract, after: seq<Contract>) {
    (forall q :: CoveredBy(kind, before, q) || Covered(kind, new_, q) ==> CoveredBy(kind, after, q))
    && forall e | e in after :: e in before || e == new_
  }

  lemma KeptCovers(kind: Kind, before: seq<Contract>, new_: Contract, kept: seq<Contract>)
    requires forall e | e in kept :: e in before
    requires forall e | e in before :: e in kept || Covered(kind, new_, e)
    ensures CoverageKept(kind, before, new_, kept + [new_])
  {
    var after := kept + [new_];
    forall q | CoveredBy(kind, before, q) || Covered(kind, new_, q) ensures CoveredBy(kind, after, q) {
      assert after[|kept|] == new_;
      if !Covered(kind, new_, q) {
        var i :| 0 <= i < |before| && Covered(kind, before[i], q);
        assert before[i] in kept;
        var j :| 0 <= j < |kept| && kept[j] == before[i];
        assert after[j] == kept[j];
      }
    }
  }

  lemma DiscardedCovers(kind: Kind, before: seq<Contract>, new_: Contract, old_: Contract)
    requires old_ in before && Covered(kind, old_, new_)
    ensures CoverageKept(kind, before, new_, before)
  {
    forall q | Covered(kind, new_, q) ensures CoveredBy(kind, before, q) {
      CoveredTransitive(kind, old_, new_, q);
      var i :| 0 <= i < |before| && before[i] == old_;
    }
  }

  /** `merge_notmay` and `merge_must` on the entries of one procedure. */
  method MergeEntries(judge: Judge, entries: seq<Contract>, new_: Contract, asked: nat, ghost kind: Kind)
    returns (merge: Merge)
    ensures !merge.Lost? && Sound(judge, kind) ==> CoverageKept(kind, entries, new_, Remaining(merge, entries))
    ensures merge.Kept? && Sharp(judge, kind) && Antichain(kind, entries) ==> Antichain(kind, merge.entries)
    ensures merge.Kept? ==> new_ in merge.entries && forall e | e in merge.entries :: e in entries || e == new_
    ensures merge == Lost(false) <==> Loses(judge, entries, new_, asked)
    ensures Total(judge) ==> !merge.Lost?
  {
    var hit, k := FindCovering(judge, entries, new_, asked, kind);
    match hit {
      case Error => return Lost(true);
      case Ok(Some(old_)) =>
        if Sound(judge, kind) {
          DiscardedCovers(kind, entries, new_, old_);
        }
        return Discarded;
      case Ok(None) =>
    }
    var kept := Uncovered(judge, entries, new_, k, kind);
    match kept {
      case Error => merge := Lost(false);
      case Ok(list) =>
        merge := Kept(list + [new_]);
        if Sound(judge, kind) {
          KeptCovers(kind, entries, new_, list);
        }
        if Sharp(judge, kind) && Antichain(kind, entries) {
          AntichainGrows(kind, entries, new_, list);
        }
    }
  }

  lemma AntichainGrows(kind: Kind, entries: seq<Contract>, new_: Contract, list: seq<Contract>)
    requires Antichain(kind, list) && !CoveredBy(kind, entries, new_)
    requires forall e | e in list :: e in entries && !Covered(kind, new_, e)
    ensures Antichain(kind, list + [new_])
  {
    var all := list + [new_];
    forall i, j | 0 <= i < |all| && 0 <= j < |all| && i != j ensures !Covered(kind, all[i], all[j]) {
      if i < |list| && j == |list| {
        assert list[i] in list;
        var m :| 0 <= m < |entries| && entries[m] == list[i];
      } else if i == |list| {
        assert all[j] == list[j] && list[j] in list;
      }
    }
  }

  // ---- The table ----------------------------------------------------------------------------

  class ContextualSummaryTable {
    var notmay: map<string, seq<Contract>>
    var must: map<string, seq<Contract>>

    constructor ()
      ensures forall kind, procedure :: Entries(kind, procedure) == []
    {
      notmay, must := map[], map[];
    }

    function Entries(kind: Kind, procedure: string): seq<Contract>
      reads this
    {
      if kind == NotMay then (if procedure in notmay then notmay[procedure] else [])
      else (if procedure in must then must[procedure] else [])
    }

    method SetEntries(kind: Kind, procedure: string, entries: seq<Contract>)
      modifies this
      ensures Entries(kind, procedure) == entries
      ensures forall other, q | other != kind || q != procedure :: Entries(other, q) == old(Entries(other, q))
    {
      if kind == NotMay {
        notmay := notmay[procedure := entries];
      } else {
        must := must[procedure := entries];
      }
    }

    /** `merge_notmay` and `merge_must`. Without an oracle error no coverage is lost, even if the
        oracle answers Unknown; valid entries stay valid; an antichain stays one when the oracle
        decides. The entries are lost exactly when the search comes through without a hit and a
        replacement query fails; an error before that changes nothing. */
    method MergeSummary(kind: Kind, procedure: string, summary: Contract, oracle: Oracle, asked: nat)
      returns (added: Result<bool>)
      modifies this
      ensures forall other, q | other != kind || q != procedure :: Entries(other, q) == old(Entries(other, q))
      ensures added.Ok? && Truthful(oracle) ==>
                CoverageKept(kind, old(Entries(kind, procedure)), summary, Entries(kind, procedure))
      ensures forall runs: Relation ::
                (forall e | e in old(Entries(kind, procedure)) :: Valid(kind, runs, e))
                  && Valid(kind, runs, summary) ==>
                  forall e | e in Entries(kind, procedure) :: Valid(kind, runs, e)
      ensures added.Ok? && Truthful(oracle) && Decisive(oracle) && Antichain(kind, old(Entries(kind, procedure))) ==>
                Antichain(kind, Entries(kind, procedure))
      ensures added.Ok? ==> (added.value ==> summary in Entries(kind, procedure))
                            && (!added.value ==> Entries(kind, procedure) == old(Entries(kind, procedure)))
      ensures var before := old(Entries(kind, procedure));
              if Loses(JudgeOf(kind, oracle), before, summary, asked)
              then added.Error? && Entries(kind, procedure) == []
              else added.Error? ==> Entries(kind, procedure) == before
      ensures Answering(oracle) ==> added.Ok?
    {
      JudgeMeaning(kind, oracle);
      var merge := MergeEntries(JudgeOf(kind, oracle), Entries(kind, procedure), summary, asked, kind);
      SetEntries(kind, procedure, Remaining(merge, Entries(kind, procedure)));
      added := match merge case Kept(_) => Ok(true) case Discarded => Ok(false) case Lost(_) => Error;
    }

    /** `lookup_notmay_covering` and `lookup_must_covering`: a hit on valid entries answers the
        query, and a decisive oracle misses only if no entry covers it. */
    method Lookup(kind: Kind, procedure: string, query: Contract, oracle: Oracle, asked: nat)
      returns (hit: Result<Option<Contract>>)
      ensures hit.Ok? && hit.value.Some? && Truthful(oracle) ==>
                forall runs: Relation ::
                  (forall e | e in Entries(kind, procedure) :: Valid(kind, runs, e)) ==> Valid(kind, runs, query)
      ensures hit == Ok(None) && Truthful(oracle) && Decisive(oracle) ==>
                !CoveredBy(kind, Entries(kind, procedure), query)
    {
      var k;
      JudgeMeaning(kind, oracle);
      hit, k := FindCovering(JudgeOf(kind, oracle), Entries(kind, procedure), query, asked, kind);
      if hit.Ok? && hit.value.Some? && Truthful(oracle) {
        forall runs: Relation | forall e | e in Entries(kind, procedure) :: Valid(kind, runs, e)
          ensures Valid(kind, runs, query)
        {
          CoveredAnswers(kind, runs, hit.value.value, query);
        }
      }
    }
  }
}
