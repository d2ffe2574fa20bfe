/** The per-task history view: the ledger filtered by task id, newest record
    first. It reads the ledger and never changes it. */
module TaskHistory {
  import opened Domain
  import Seqs

  function Matching(history: seq<HistoryRecord>, taskId: TaskId): seq<HistoryRecord> {
    Seqs.Filter(history, (rec: HistoryRecord) => rec.taskId == taskId)
  }

  /** The records of one task, newest first. */
  function Query(history: seq<HistoryRecord>, taskId: TaskId): (r: seq<HistoryRecord>)
    ensures forall i :: 0 <= i < |r| ==> r[i].taskId == taskId
    ensures |r| <= |history|
  {
    Seqs.Reverse(Matching(history, taskId))
  }

  /** The query holds every record of the task as often as the ledger does,
      and nothing else; so an element is in the result exactly when it is a
      record of the task in the ledger. */
  lemma QueryExact(history: seq<HistoryRecord>, taskId: TaskId)
    ensures forall rec :: multiset(Query(history, taskId))[rec]
                       == if rec.taskId == taskId then multiset(history)[rec] else 0
    ensures forall rec :: rec in Query(history, taskId) <==> rec in history && rec.taskId == taskId
  {
    var m := Matching(history, taskId);
    var r := Query(history, taskId);
    Seqs.FilterMultiset(history, (rec: HistoryRecord) => rec.taskId == taskId);
    Seqs.ReverseMultiset(m);
    Seqs.MultisetMembers(r);
    Seqs.MultisetMembers(m);
    Seqs.FilterMembers(history, (rec: HistoryRecord) => rec.taskId == taskId);
  }

  /** Read back to front, the query is a subsequence of the ledger: its
      records are in reverse insertion order. */
  lemma QueryNewestFirst(history: seq<HistoryRecord>, taskId: TaskId)
    ensures Seqs.IsSubsequence(Seqs.Reverse(Query(history, taskId)), history)
  {
    Seqs.ReverseInvolution(Matching(history, taskId));
  }

  /** Records appended to the ledger come before the older ones in the query
      result: the query of a longer ledger is the query of the new part
      followed by the query of the old part. */
  lemma QueryConcat(history: seq<HistoryRecord>, added: seq<HistoryRecord>, taskId: TaskId)
    ensures Query(history + added, taskId) == Query(added, taskId) + Query(history, taskId)
  {
    Seqs.FilterConcat(history, added, (rec: HistoryRecord) => rec.taskId == taskId);
    Seqs.ReverseConcat(Matching(history, taskId), Matching(added, taskId));
  }

  /** A ledger that extends an older one shows the older query below the
      records added since. */
  lemma QueryOfExtension(older: seq<HistoryRecord>, newer: seq<HistoryRecord>, taskId: TaskId)
    requires older <= newer
    ensures Query(newer, taskId) == Query(newer[|older|..], taskId) + Query(older, taskId)
  {
    assert newer == older + newer[|older|..];
    QueryConcat(older, newer[|older|..], taskId);
  }

  /** The newest record of a task is the first in its query. */
  lemma QueryAppend(history: seq<HistoryRecord>, rec: HistoryRecord, taskId: TaskId)
    ensures Query(history + [rec], taskId)
         == if rec.taskId == taskId then [rec] + Query(history, taskId) else Query(history, taskId)
  {
    QueryConcat(history, [rec], taskId);
    assert Matching([rec], taskId) == if rec.taskId == taskId then [rec] else [];
  }
}
