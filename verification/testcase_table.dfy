/**
 * The testcase part of `save_question_options`: the question's existing
 * rows of `question_coderunner_tests`, read in ascending id order, are
 * overwritten one by one by the new testcases; testcases left over are
 * inserted under fresh ids and rows left over are deleted.
 *
 * The table is an in-memory map from row id to record.  The database's
 * auto-increment key is the counter `nextId`: every insert takes it and
 * bumps it, so an id is never handed out twice.
 */
module TestcaseTable {
  import opened Testcases

  datatype Table = Table(rows: map<nat, Testcase>, nextId: nat)

  /** Every stored id was handed out by the counter. */
  predicate Valid(t: Table)
  {
    forall id :: id in t.rows ==> id < t.nextId
  }

  /** `update_record`: the row keeps its id and takes the testcase's fields. */
  function UpdateRow(t: Table, id: nat, tc: Testcase): Table
  {
    t.(rows := t.rows[id := tc])
  }

  /** `insert_record` of a new testcase, stamped with the question's id. */
  function InsertRow(t: Table, qid: int, tc: Testcase): Table
  {
    t.(rows := t.rows[t.nextId := tc.(questionId := qid)], nextId := t.nextId + 1)
  }

  /** `delete_records` by id. */
  function DeleteRow(t: Table, id: nat): Table
  {
    t.(rows := t.rows - {id})
  }

  /** A strictly increasing sequence of ids. */
  predicate Increasing(ids: seq<nat>)
  {
    forall j, k :: 0 <= j < k < |ids| ==> ids[j] < ids[k]
  }

  /** Ids below `n` of the rows belonging to question `qid`, ascending. */
  function IdsBelow(t: Table, qid: int, n: nat): (ids: seq<nat>)
    ensures forall id :: id in ids <==> id < n && id in t.rows && t.rows[id].questionId == qid
    ensures forall j :: 0 <= j < |ids| ==> ids[j] < n
    ensures Increasing(ids)
  {
    if n == 0 then []
    else
      var prefix := IdsBelow(t, qid, n - 1);
      if n - 1 in t.rows && t.rows[n - 1].questionId == qid then prefix + [n - 1] else prefix
  }

  /**
   * `get_records($testcasetable, array('questionid' => $qid), 'id ASC')`,
   * reduced to the ids: the question's rows in ascending id order.
   */
  function QuestionIds(t: Table, qid: int): (ids: seq<nat>)
    ensures forall id :: id in ids <==> id < t.nextId && id in t.rows && t.rows[id].questionId == qid
    ensures Increasing(ids)
  {
    IdsBelow(t, qid, t.nextId)
  }

  /** The question's testcases as loading them in id order returns them. */
  function LoadTestcases(t: Table, qid: int): (tcs: seq<Testcase>)
    requires Valid(t)
    ensures |tcs| == |QuestionIds(t, qid)|
    ensures forall j :: 0 <= j < |tcs| ==> tcs[j] == t.rows[QuestionIds(t, qid)[j]]
  {
    var ids := QuestionIds(t, qid);
    seq(|ids|, j requires 0 <= j < |ids| => t.rows[ids[j]])
  }

  /**
   * The two loops: each testcase reuses the next pending old id
   * (`array_shift`) or, once those run out, is inserted; the old ids still
   * pending afterwards are deleted.
   */
  function Rewrite(t: Table, qid: int, tcs: seq<Testcase>, pending: seq<nat>): (r: Table)
    ensures r.nextId == t.nextId + (|tcs| - Min(|tcs|, |pending|))
    decreases |tcs| + |pending|
  {
    if tcs != [] then
      if pending != [] then Rewrite(UpdateRow(t, pending[0], tcs[0]), qid, tcs[1..], pending[1..])
      else Rewrite(InsertRow(t, qid, tcs[0]), qid, tcs[1..], [])
    else if pending != [] then Rewrite(DeleteRow(t, pending[0]), qid, [], pending[1..])
    else t
  }

  /** The testcase-saving part of `save_question_options` for question `qid`. */
  function SaveQuestionTestcases(t: Table, qid: int, tcs: seq<Testcase>): (r: Table)
    ensures r.nextId == t.nextId + (|tcs| - Min(|tcs|, |QuestionIds(t, qid)|))
  {
    Rewrite(t, qid, tcs, QuestionIds(t, qid))
  }

  function Min(a: int, b: int): int
  {
    if a <= b then a else b
  }

  /** Pending ids are distinct and were handed out by the counter. */
  predicate PendingOk(t: Table, pending: seq<nat>)
  {
    && (forall j :: 0 <= j < |pending| ==> pending[j] < t.nextId)
    && (forall j, k :: 0 <= j < k < |pending| ==> pending[j] != pending[k])
  }

  lemma PendingTail(t: Table, pending: seq<nat>)
    requires pending != [] && PendingOk(t, pending)
    ensures PendingOk(t, pending[1..])
    ensures pending[0] !in pending[1..]
    ensures forall id :: id in pending[1..] ==> id in pending
  {
  }

  /**
   * The counter advances by one per inserted testcase — those beyond the
   * pending ids — and every id stays below it.
   */
  lemma {:induction false} RewriteCounter(t: Table, qid: int, tcs: seq<Testcase>, pending: seq<nat>)
    requires Valid(t) && PendingOk(t, pending)
    ensures var r := Rewrite(t, qid, tcs, pending);
            Valid(r) && r.nextId == t.nextId + (|tcs| - Min(|tcs|, |pending|))
    decreases |tcs| + |pending|
  {
    if pending != [] {
      PendingTail(t, pending);
    }
    if tcs != [] {
      if pending != [] {
        RewriteCounter(UpdateRow(t, pending[0], tcs[0]), qid, tcs[1..], pending[1..]);
      } else {
        RewriteCounter(InsertRow(t, qid, tcs[0]), qid, tcs[1..], []);
      }
    } else if pending != [] {
      RewriteCounter(DeleteRow(t, pending[0]), qid, [], pending[1..]);
    }
  }

  /** Ids below the old counter that are not pending keep their rows, or their absence. */
  lemma {:induction false} RewriteUntouched(t: Table, qid: int, tcs: seq<Testcase>, pending: seq<nat>)
    ensures var r := Rewrite(t, qid, tcs, pending);
            forall id :: id < t.nextId && id !in pending ==>
              (id in r.rows <==> id in t.rows) && (id in t.rows ==> r.rows[id] == t.rows[id])
    decreases |tcs| + |pending|
  {
    if tcs != [] {
      if pending != [] {
        RewriteUntouched(UpdateRow(t, pending[0], tcs[0]), qid, tcs[1..], pending[1..]);
      } else {
        RewriteUntouched(InsertRow(t, qid, tcs[0]), qid, tcs[1..], []);
      }
    } else if pending != [] {
      RewriteUntouched(DeleteRow(t, pending[0]), qid, [], pending[1..]);
    }
  }

  /** The first `min(|tcs|, |pending|)` testcases are written under the first pending ids, in order. */
  lemma {:induction false} RewriteReused(t: Table, qid: int, tcs: seq<Testcase>, pending: seq<nat>)
    requires PendingOk(t, pending)
    ensures var r := Rewrite(t, qid, tcs, pending);
            forall j :: 0 <= j < Min(|tcs|, |pending|) ==>
              pending[j] in r.rows && r.rows[pending[j]] == tcs[j]
    decreases |tcs| + |pending|
  {
    if tcs != [] && pending != [] {
      var t' := UpdateRow(t, pending[0], tcs[0]);
      var r := Rewrite(t', qid, tcs[1..], pending[1..]);
      PendingTail(t, pending);
      RewriteReused(t', qid, tcs[1..], pending[1..]);
      RewriteUntouched(t', qid, tcs[1..], pending[1..]);
      forall j | 0 <= j < Min(|tcs|, |pending|) ensures pending[j] in r.rows && r.rows[pending[j]] == tcs[j] {
        if j > 0 {
          assert pending[j] == pending[1..][j - 1] && tcs[j] == tcs[1..][j - 1];
        }
      }
    }
  }

  /** Pending ids beyond the testcases are deleted. */
  lemma {:induction false} RewriteDropped(t: Table, qid: int, tcs: seq<Testcase>, pending: seq<nat>)
    requires PendingOk(t, pending)
    ensures var r := Rewrite(t, qid, tcs, pending);
            forall j :: Min(|tcs|, |pending|) <= j < |pending| ==> pending[j] !in r.rows
    decreases |tcs| + |pending|
  {
    if pending != [] {
      PendingTail(t, pending);
      if tcs != [] {
        var t' := UpdateRow(t, pending[0], tcs[0]);
        RewriteDropped(t', qid, tcs[1..], pending[1..]);
        forall j | Min(|tcs|, |pending|) <= j < |pending|
          ensures pending[j] !in Rewrite(t', qid, tcs[1..], pending[1..]).rows
        {
          assert pending[j] == pending[1..][j - 1];
        }
      } else {
        var t' := DeleteRow(t, pending[0]);
        RewriteDropped(t', qid, [], pending[1..]);
        RewriteUntouched(t', qid, [], pending[1..]);
        forall j | 0 <= j < |pending| ensures pending[j] !in Rewrite(t', qid, [], pending[1..]).rows {
          if j > 0 {
            assert pending[j] == pending[1..][j - 1];
          }
        }
      }
    }
  }

  /**
   * The testcases beyond the pending ids are inserted at consecutive ids
   * from the old counter on, stamped with the question's id.
   */
  lemma {:induction false} RewriteInserted(t: Table, qid: int, tcs: seq<Testcase>, pending: seq<nat>)
    ensures var r := Rewrite(t, qid, tcs, pending);
            && r.nextId == t.nextId + (|tcs| - Min(|tcs|, |pending|))
            && forall id :: t.nextId <= id < r.nextId ==>
                 id in r.rows && r.rows[id] == tcs[Min(|tcs|, |pending|) + id - t.nextId].(questionId := qid)
    decreases |tcs| + |pending|
  {
    var r := Rewrite(t, qid, tcs, pending);
    if tcs != [] && pending != [] {
      RewriteInserted(UpdateRow(t, pending[0], tcs[0]), qid, tcs[1..], pending[1..]);
      forall id | t.nextId <= id < r.nextId
        ensures id in r.rows && r.rows[id] == tcs[Min(|tcs|, |pending|) + id - t.nextId].(questionId := qid)
      {
        assert tcs[1..][Min(|tcs| - 1, |pending| - 1) + id - t.nextId]
            == tcs[Min(|tcs|, |pending|) + id - t.nextId];
      }
    } else if tcs != [] {
      RewriteAppends(t, qid, tcs);
    } else if pending != [] {
      RewriteInserted(DeleteRow(t, pending[0]), qid, [], pending[1..]);
    }
  }

  /** With no old ids left, the testcases are appended under consecutive fresh ids. */
  lemma {:induction false} RewriteAppends(t: Table, qid: int, tcs: seq<Testcase>)
    ensures var r := Rewrite(t, qid, tcs, []);
            && r.nextId == t.nextId + |tcs|
            && forall id :: t.nextId <= id < r.nextId ==>
                 id in r.rows && r.rows[id] == tcs[id - t.nextId].(questionId := qid)
    decreases |tcs|
  {
    if tcs != [] {
      var t' := InsertRow(t, qid, tcs[0]);
      RewriteAppends(t', qid, tcs[1..]);
      RewriteUntouched(t', qid, tcs[1..], []);
      var r := Rewrite(t, qid, tcs, []);
      forall id | t'.nextId <= id < r.nextId
        ensures id in r.rows && r.rows[id] == tcs[id - t.nextId].(questionId := qid)
      {
        assert tcs[1..][id - t'.nextId] == tcs[id - t.nextId];
      }
    }
  }

  // The testcase diff of `save_question_options`, with the question's old
  // rows taken in ascending id order, one property per lemma.

  /** Saving keeps the table valid and advances the id counter once per inserted row. */
  lemma SaveCounter(t: Table, qid: int, tcs: seq<Testcase>)
    requires Valid(t)
    ensures var olds := QuestionIds(t, qid);
            var r := SaveQuestionTestcases(t, qid, tcs);
            Valid(r) && r.nextId == t.nextId + (|tcs| - Min(|tcs|, |olds|))
  {
    RewriteCounter(t, qid, tcs, QuestionIds(t, qid));
  }

  /** Testcase `j` is written under the id of old row `j` while both last. */
  lemma SaveReusesOldIds(t: Table, qid: int, tcs: seq<Testcase>)
    requires Valid(t)
    ensures var olds := QuestionIds(t, qid);
            var r := SaveQuestionTestcases(t, qid, tcs);
            forall j :: 0 <= j < Min(|tcs|, |olds|) ==> olds[j] in r.rows && r.rows[olds[j]] == tcs[j]
  {
    RewriteReused(t, qid, tcs, QuestionIds(t, qid));
  }

  /** The old rows left over once the testcases run out are deleted. */
  lemma SaveDeletesSurplus(t: Table, qid: int, tcs: seq<Testcase>)
    requires Valid(t)
    ensures var olds := QuestionIds(t, qid);
            var r := SaveQuestionTestcases(t, qid, tcs);
            forall j :: Min(|tcs|, |olds|) <= j < |olds| ==> olds[j] !in r.rows
  {
    RewriteDropped(t, qid, tcs, QuestionIds(t, qid));
  }

  /**
   * The testcases left over once the old rows run out are inserted, in
   * order, under fresh ids, each stamped with the question's id.
   */
  lemma SaveInsertsSurplus(t: Table, qid: int, tcs: seq<Testcase>)
    requires Valid(t)
    ensures var olds := QuestionIds(t, qid);
            var r := SaveQuestionTestcases(t, qid, tcs);
            var k := Min(|tcs|, |olds|);
            && r.nextId == t.nextId + (|tcs| - k)
            && forall id :: t.nextId <= id < r.nextId ==>
                 id in r.rows && r.rows[id] == tcs[k + id - t.nextId].(questionId := qid)
  {
    RewriteInserted(t, qid, tcs, QuestionIds(t, qid));
  }

  /** The rows of every other question are left alone. */
  lemma SaveKeepsOtherQuestions(t: Table, qid: int, tcs: seq<Testcase>)
    requires Valid(t)
    ensures var r := SaveQuestionTestcases(t, qid, tcs);
            forall id :: id in t.rows && t.rows[id].questionId != qid ==>
              id in r.rows && r.rows[id] == t.rows[id]
  {
    var olds := QuestionIds(t, qid);
    var r := SaveQuestionTestcases(t, qid, tcs);
    RewriteUntouched(t, qid, tcs, olds);
    forall id | id in t.rows && t.rows[id].questionId != qid
      ensures id in r.rows && r.rows[id] == t.rows[id]
    {
      assert id < t.nextId && id !in olds;
    }
  }

  /** Consecutive ids `a`, `a + 1`, …, `a + m - 1`. */
  function Fresh(a: nat, m: nat): (ids: seq<nat>)
    ensures |ids| == m
    ensures forall j :: 0 <= j < m ==> ids[j] == a + j
  {
    seq(m, j requires 0 <= j < m => a + j)
  }

  lemma FirstIsMember(s: seq<nat>)
    ensures s != [] ==> s[0] in s
  {
  }

  /** A strictly increasing sequence is determined by its elements. */
  lemma {:induction false} IncreasingUnique(a: seq<nat>, b: seq<nat>)
    requires Increasing(a) && Increasing(b)
    requires forall x :: x in a <==> x in b
    ensures a == b
    decreases |a|
  {
    if a != [] {
      assert a[0] in b;
      assert b != [] && b[0] in a;
      assert a[0] == b[0];
      forall x ensures x in a[1..] <==> x in b[1..] {
        if x in a[1..] {
          var j :| 1 <= j < |a| && a[j] == x;
          assert x in b && x != b[0];
        }
        if x in b[1..] {
          var j :| 1 <= j < |b| && b[j] == x;
          assert x in a && x != a[0];
        }
      }
      IncreasingUnique(a[1..], b[1..]);
    } else {
      FirstIsMember(b);
    }
  }

  /** The ids the question should hold after saving: the reused old ids, then the fresh ones. */
  function SavedIdsExpected(t: Table, qid: int, tcs: seq<Testcase>): seq<nat>
  {
    var olds := QuestionIds(t, qid);
    var k := Min(|tcs|, |olds|);
    olds[..k] + Fresh(t.nextId, |tcs| - k)
  }

  lemma SavedIdsExpectedIncreasing(t: Table, qid: int, tcs: seq<Testcase>)
    ensures Increasing(SavedIdsExpected(t, qid, tcs))
  {
    var olds := QuestionIds(t, qid);
    var k := Min(|tcs|, |olds|);
    var expected := SavedIdsExpected(t, qid, tcs);
    forall j, j' | 0 <= j < j' < |expected| ensures expected[j] < expected[j'] {
      if j' < k {
        assert expected[j] == olds[j] && expected[j'] == olds[j'];
      } else if j < k {
        assert expected[j] == olds[j] < t.nextId;
      }
    }
  }

  /** Every expected id belongs to the question after saving. */
  lemma SavedIdsSound(t: Table, qid: int, tcs: seq<Testcase>)
    requires Valid(t)
    requires forall j :: 0 <= j < |tcs| ==> tcs[j].questionId == qid
    ensures forall id :: id in SavedIdsExpected(t, qid, tcs) ==>
              id in QuestionIds(SaveQuestionTestcases(t, qid, tcs), qid)
  {
    var olds := QuestionIds(t, qid);
    var k := Min(|tcs|, |olds|);
    var r := SaveQuestionTestcases(t, qid, tcs);
    RewriteCounter(t, qid, tcs, olds);
    RewriteReused(t, qid, tcs, olds);
    RewriteInserted(t, qid, tcs, olds);
    forall id | id in SavedIdsExpected(t, qid, tcs)
      ensures id < r.nextId && id in r.rows && r.rows[id].questionId == qid
    {
      var j :| 0 <= j < |SavedIdsExpected(t, qid, tcs)| && SavedIdsExpected(t, qid, tcs)[j] == id;
      if j < k {
        assert id == olds[j];
      } else {
        assert id == t.nextId + (j - k);
      }
    }
  }

  /** Every id the question holds after saving is expected. */
  lemma SavedIdsComplete(t: Table, qid: int, tcs: seq<Testcase>)
    requires Valid(t)
    ensures forall id :: id in QuestionIds(SaveQuestionTestcases(t, qid, tcs), qid) ==>
              id in SavedIdsExpected(t, qid, tcs)
  {
    forall id | id in QuestionIds(SaveQuestionTestcases(t, qid, tcs), qid)
      ensures id in SavedIdsExpected(t, qid, tcs)
    {
      SavedIdComplete(t, qid, tcs, id);
    }
  }

  lemma SavedIdComplete(t: Table, qid: int, tcs: seq<Testcase>, id: nat)
    requires Valid(t)
    requires id in QuestionIds(SaveQuestionTestcases(t, qid, tcs), qid)
    ensures id in SavedIdsExpected(t, qid, tcs)
  {
    var olds := QuestionIds(t, qid);
    var k := Min(|tcs|, |olds|);
    var expected := SavedIdsExpected(t, qid, tcs);
    if id < t.nextId {
      assert id in olds by {
        RewriteUntouched(t, qid, tcs, olds);
      }
      var j :| 0 <= j < |olds| && olds[j] == id;
      assert j < k by {
        RewriteDropped(t, qid, tcs, olds);
      }
      assert expected[j] == id;
    } else {
      assert id < t.nextId + (|tcs| - k) by {
        RewriteCounter(t, qid, tcs, olds);
      }
      assert expected[k + (id - t.nextId)] == id;
    }
  }

  /**
   * The ids the question holds after saving are the reused old ids, then
   * the fresh ones, provided every testcase already carries the question's id.
   */
  lemma SavedIds(t: Table, qid: int, tcs: seq<Testcase>)
    requires Valid(t)
    requires forall j :: 0 <= j < |tcs| ==> tcs[j].questionId == qid
    ensures QuestionIds(SaveQuestionTestcases(t, qid, tcs), qid) == SavedIdsExpected(t, qid, tcs)
  {
    SavedIdsSound(t, qid, tcs);
    SavedIdsComplete(t, qid, tcs);
    SavedIdsExpectedIncreasing(t, qid, tcs);
    IncreasingUnique(SavedIdsExpected(t, qid, tcs), QuestionIds(SaveQuestionTestcases(t, qid, tcs), qid));
  }

  /** The row saved under the `j`-th expected id is the `j`-th testcase. */
  lemma SavedRowAt(t: Table, qid: int, tcs: seq<Testcase>, j: nat)
    requires Valid(t) && j < |tcs|
    requires tcs[j].questionId == qid
    ensures var ids, r := SavedIdsExpected(t, qid, tcs), SaveQuestionTestcases(t, qid, tcs);
            j < |ids| && ids[j] in r.rows && r.rows[ids[j]] == tcs[j]
  {
    var olds := QuestionIds(t, qid);
    var k := Min(|tcs|, |olds|);
    var ids := SavedIdsExpected(t, qid, tcs);
    if j < k {
      RewriteReused(t, qid, tcs, olds);
      assert ids[j] == olds[j];
    } else {
      RewriteInserted(t, qid, tcs, olds);
      assert ids[j] == t.nextId + (j - k);
    }
  }

  /**
   * Saving then loading the question's testcases in id order gives back
   * exactly the saved testcases, so the question ends with as many rows as
   * testcases — provided each testcase already carries the question's id
   * (reused rows take the testcase's own `questionid`).
   */
  lemma SaveThenLoad(t: Table, qid: int, tcs: seq<Testcase>)
    requires Valid(t)
    requires forall j :: 0 <= j < |tcs| ==> tcs[j].questionId == qid
    ensures Valid(SaveQuestionTestcases(t, qid, tcs))
    ensures LoadTestcases(SaveQuestionTestcases(t, qid, tcs), qid) == tcs
  {
    var r := SaveQuestionTestcases(t, qid, tcs);
    RewriteCounter(t, qid, tcs, QuestionIds(t, qid));
    SavedIds(t, qid, tcs);
    var loaded := LoadTestcases(r, qid);
    forall j | 0 <= j < |tcs| ensures loaded[j] == tcs[j] {
      SavedRowAt(t, qid, tcs, j);
    }
  }

  /**
   * With as many testcases as old rows, saving only overwrites: no id is
   * added or removed and the counter does not move.
   */
  lemma SaveSameCountKeepsIds(t: Table, qid: int, tcs: seq<Testcase>)
    requires Valid(t)
    requires |tcs| == |QuestionIds(t, qid)|
    ensures SaveQuestionTestcases(t, qid, tcs).rows.Keys == t.rows.Keys
    ensures SaveQuestionTestcases(t, qid, tcs).nextId == t.nextId
  {
    var olds := QuestionIds(t, qid);
    var r := SaveQuestionTestcases(t, qid, tcs);
    RewriteCounter(t, qid, tcs, olds);
    RewriteReused(t, qid, tcs, olds);
    RewriteUntouched(t, qid, tcs, olds);
    forall id ensures id in r.rows <==> id in t.rows {
      if id in olds {
        var j :| 0 <= j < |olds| && olds[j] == id;
      }
    }
  }
}
