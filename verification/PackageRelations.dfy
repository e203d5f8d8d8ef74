/** The package/vulnerability relation and its confidence rule
  (`PackageRelatedVulnerabilityBase.update_or_create` in vulnerabilities/models.py). */
module PackageRelations {

  /** The pair under the unique constraint. */
  datatype Pair = Pair(package: string, vulnerability: string)

  datatype Relation = Relation(createdBy: string, confidence: nat)

  datatype Submission = Submission(pair: Pair, relation: Relation)

  function Submit(rows: map<Pair, Relation>, sub: Submission): map<Pair, Relation> {
    if sub.pair in rows && sub.relation.confidence <= rows[sub.pair].confidence then rows
    else rows[sub.pair := sub.relation]
  }

  class RelationTable {
    var rows: map<Pair, Relation>

    constructor ()
      ensures rows == map[]
    {
      rows := map[];
    }

    /** Update if the submission has more confidence, create if there is no row. */
    method UpdateOrCreate(sub: Submission)
      modifies this
      ensures rows == Submit(old(rows), sub)
    {
      if sub.pair in rows {
        var existing := rows[sub.pair];
        if sub.relation.confidence > existing.confidence {
          existing := existing.(createdBy := sub.relation.createdBy);
          existing := existing.(confidence := sub.relation.confidence);
          rows := rows[sub.pair := existing];
        }
      } else {
        rows := rows[sub.pair := sub.relation];
      }
    }
  }

  function SubmitAll(subs: seq<Submission>): map<Pair, Relation> {
    if subs == [] then map[] else Submit(SubmitAll(subs[..|subs| - 1]), subs[|subs| - 1])
  }

  /** `i` is the earliest submission of the highest confidence for its pair. */
  ghost predicate EarliestBest(subs: seq<Submission>, i: nat) {
    && i < |subs|
    && (forall j :: 0 <= j < |subs| && subs[j].pair == subs[i].pair ==>
          subs[j].relation.confidence <= subs[i].relation.confidence)
    && (forall j :: 0 <= j < i && subs[j].pair == subs[i].pair ==>
          subs[j].relation.confidence < subs[i].relation.confidence)
  }

  ghost predicate Submitted(subs: seq<Submission>, pair: Pair) {
    exists i :: 0 <= i < |subs| && subs[i].pair == pair
  }

  lemma {:induction false} BestSubmission(subs: seq<Submission>, pair: Pair) returns (i: nat)
    ensures pair in SubmitAll(subs) <==> Submitted(subs, pair)
    ensures Submitted(subs, pair) ==>
              EarliestBest(subs, i) && subs[i].pair == pair && SubmitAll(subs)[pair] == subs[i].relation
  {
    i := 0;
    if subs != [] {
      var n := |subs| - 1;
      var init, last := subs[..n], subs[n];
      assert forall j :: 0 <= j < n ==> subs[j] == init[j];
      i := BestSubmission(init, pair);
      if last.pair == pair {
        if Submitted(init, pair) && last.relation.confidence <= init[i].relation.confidence {
          assert EarliestBest(subs, i);
        } else {
          i := n;
          assert EarliestBest(subs, n);
        }
      } else {
        assert Submitted(subs, pair) <==> Submitted(init, pair);
      }
    }
  }

  /** After any run each submitted pair, and no other, has its one relation, and that is the
    earliest submission of the highest confidence: later equals do not take the credit. */
  lemma TableKeepsEarliestBest(subs: seq<Submission>, pair: Pair)
    ensures pair in SubmitAll(subs) <==> Submitted(subs, pair)
    ensures Submitted(subs, pair) ==>
              exists i: nat :: EarliestBest(subs, i) && subs[i].pair == pair
                               && SubmitAll(subs)[pair] == subs[i].relation
  {
    var i := BestSubmission(subs, pair);
  }
}
