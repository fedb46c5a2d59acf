/** The write side of the `texts` table: a contribution inserts a pending
    row, and a manager's approve or reject overwrites the status of one id. */
module Moderation {
  import opened Wrappers
  import opened Seqs
  import opened Text
  import opened Records

  /** The contribution form as submitted; a missing field reads as "". */
  datatype Submission = Submission(
    titleZu: string, titleEn: string, contentZu: string, contentEn: string,
    fullContentZu: string, fullContentEn: string, category: string, source: string)

  /** Every field with surrounding whitespace removed. */
  function Stripped(f: Submission): Submission {
    Submission(Strip(f.titleZu), Strip(f.titleEn), Strip(f.contentZu), Strip(f.contentEn),
      Strip(f.fullContentZu), Strip(f.fullContentEn), Strip(f.category), Strip(f.source))
  }

  /** `all([title, title_en, content, content_en, category])` on the
      stripped fields; the full texts and the source may be empty. */
  predicate Complete(f: Submission) {
    f.titleZu != [] && f.titleEn != [] && f.contentZu != [] && f.contentEn != [] && f.category != []
  }

  /** The whitespace tokens of `f"{content} {full_content}"`. */
  function ContributionWords(content: string, full: string): seq<string> {
    Split(content + " " + full)
  }

  /** `word_count` counts the tokens of the content and of the full text
      together, and `unique_words` (distinct tokens, case kept) never
      exceeds it. */
  lemma ContributionCounts(content: string, full: string)
    ensures |ContributionWords(content, full)| == |Split(content)| + |Split(full)|
    ensures |Elements(ContributionWords(content, full))| <= |ContributionWords(content, full)|
  {
    SplitAround(content, ' ', full);
    ElementsBound(ContributionWords(content, full));
  }

  /** The row a stripped, complete submission becomes. */
  function Contribution(f: Submission, id: int, userId: int): TextRecord {
    var words := ContributionWords(f.contentZu, f.fullContentZu);
    TextRecord(id, f.titleZu, f.titleEn, f.contentZu, f.contentEn,
      Some(f.fullContentZu), Some(f.fullContentEn), f.category,
      Some(|words|), Some(|Elements(words)|), Some(f.source), Some(userId), Pending)
  }

  /** `UPDATE texts SET status = st WHERE id = id`. */
  function WithStatus(rows: seq<TextRecord>, id: int, st: Status): (r: seq<TextRecord>)
    ensures |r| == |rows|
    ensures forall k :: 0 <= k < |rows| ==>
      if rows[k].id == id then r[k] == rows[k].(status := st) else r[k] == rows[k]
  {
    if rows == [] then []
    else [if rows[0].id == id then rows[0].(status := st) else rows[0]] + WithStatus(rows[1..], id, st)
  }

  /** A status update keeps every id, so it keeps the key unique. */
  lemma WithStatusKeepsIds(rows: seq<TextRecord>, id: int, st: Status)
    requires IdsUnique(rows)
    ensures IdsUnique(WithStatus(rows, id, st))
    ensures forall k :: 0 <= k < |rows| ==> WithStatus(rows, id, st)[k].id == rows[k].id
  {
  }

  /** There is no guard on the current status: the last update of an id
      wins, whatever came before. */
  lemma {:induction false} LastUpdateWins(rows: seq<TextRecord>, id: int, first: Status, second: Status)
    ensures WithStatus(WithStatus(rows, id, first), id, second) == WithStatus(rows, id, second)
  {
    if rows != [] {
      LastUpdateWins(rows[1..], id, first, second);
    }
  }

  /** Updates of two different ids touch different rows, so their order
      does not matter. */
  lemma {:induction false} UpdatesCommute(rows: seq<TextRecord>, a: int, sa: Status, b: int, sb: Status)
    requires a != b
    ensures WithStatus(WithStatus(rows, a, sa), b, sb) == WithStatus(WithStatus(rows, b, sb), a, sa)
  {
    if rows != [] {
      UpdatesCommute(rows[1..], a, sa, b, sb);
    }
  }

  /** After approving an id, its row, every other field unchanged, is among
      the approved rows. */
  lemma ApproveShowsRow(rows: seq<TextRecord>, id: int, k: nat)
    requires k < |rows| && rows[k].id == id
    ensures rows[k].(status := Approved) in ApprovedRows(WithStatus(rows, id, Approved))
  {
    assert WithStatus(rows, id, Approved)[k] == rows[k].(status := Approved);
  }

  /** Approving an id makes exactly the rows with that id join the approved
      rows, their status set and every other field kept; the rows approved
      before stay, and table order is kept. */
  lemma {:induction false} ApproveAddsRows(rows: seq<TextRecord>, id: int)
    ensures ApprovedRows(WithStatus(rows, id, Approved)) ==
      WithStatus(Filter(rows, (r: TextRecord) => IsApproved(r) || r.id == id), id, Approved)
  {
    if rows != [] {
      var keep := (r: TextRecord) => IsApproved(r) || r.id == id;
      var w := WithStatus(rows, id, Approved);
      ApproveAddsRows(rows[1..], id);
      assert w[1..] == WithStatus(rows[1..], id, Approved);
      assert ApprovedRows(w) == (if IsApproved(w[0]) then [w[0]] else []) + ApprovedRows(w[1..]);
      var f := Filter(rows, keep);
      if keep(rows[0]) {
        assert f == [rows[0]] + Filter(rows[1..], keep);
        assert f[0] == rows[0] && f[1..] == Filter(rows[1..], keep);
      } else {
        assert f == Filter(rows[1..], keep);
      }
    }
  }

  /** Rejecting an id removes every row with that id from the approved
      rows and keeps the others. */
  lemma {:induction false} RejectHidesRow(rows: seq<TextRecord>, id: int)
    ensures ApprovedRows(WithStatus(rows, id, Rejected)) ==
      Filter(ApprovedRows(rows), (r: TextRecord) => r.id != id)
  {
    if rows != [] {
      var keep := (r: TextRecord) => r.id != id;
      var w := WithStatus(rows, id, Rejected);
      RejectHidesRow(rows[1..], id);
      assert w[1..] == WithStatus(rows[1..], id, Rejected);
      var head := if IsApproved(rows[0]) then [rows[0]] else [];
      assert ApprovedRows(rows) == head + ApprovedRows(rows[1..]);
      FilterAppend(head, ApprovedRows(rows[1..]), keep);
      assert ApprovedRows(w) == (if IsApproved(w[0]) then [w[0]] else []) + ApprovedRows(w[1..]);
      assert (if IsApproved(w[0]) then [w[0]] else []) == Filter(head, keep);
    }
  }

  /** The table, with the next value of its `AUTOINCREMENT` key. */
  class Corpus {
    var rows: seq<TextRecord>
    var nextId: int

    ghost predicate Valid()
      reads this
    {
      0 < nextId && IdsUnique(rows) && forall k :: 0 <= k < |rows| ==> 0 < rows[k].id < nextId
    }

    constructor ()
      ensures Valid() && rows == [] && nextId == 1
    {
      rows := [];
      nextId := 1;
    }

    /** `contribute`: strip the fields; with a required field empty nothing
        is written; otherwise one pending row is appended under a fresh id. */
    method Contribute(form: Submission, userId: int) returns (id: Option<int>)
      requires Valid()
      modifies this
      ensures Valid()
      ensures id.Some? <==> Complete(Stripped(form))
      ensures id.None? ==> rows == old(rows) && nextId == old(nextId)
      ensures id.Some? ==>
        id.value == old(nextId) && nextId == old(nextId) + 1
        && rows == old(rows) + [Contribution(Stripped(form), old(nextId), userId)]
    {
      var f := Stripped(form);
      if !Complete(f) {
        return None;
      }
      var newId := Insert(Contribution(f, 0, userId));
      assert Contribution(f, 0, userId).(id := newId) == Contribution(f, newId, userId);
      id := Some(newId);
    }

    /** `INSERT INTO texts`: the row is stored under the next key value. */
    method Insert(row: TextRecord) returns (id: int)
      requires Valid()
      modifies this
      ensures Valid()
      ensures id == old(nextId) && nextId == old(nextId) + 1
      ensures rows == old(rows) + [row.(id := id)]
    {
      id := nextId;
      ghost var before := rows;
      rows := rows + [row.(id := id)];
      assert forall k :: 0 <= k < |before| ==> rows[k] == before[k];
      nextId := nextId + 1;
    }

    /** `manager_approve`. */
    method Approve(id: int)
      requires Valid()
      modifies this
      ensures Valid() && nextId == old(nextId)
      ensures rows == WithStatus(old(rows), id, Approved)
    {
      WithStatusKeepsIds(rows, id, Approved);
      rows := WithStatus(rows, id, Approved);
    }

    /** `manager_reject`. */
    method Reject(id: int)
      requires Valid()
      modifies this
      ensures Valid() && nextId == old(nextId)
      ensures rows == WithStatus(old(rows), id, Rejected)
    {
      WithStatusKeepsIds(rows, id, Rejected);
      rows := WithStatus(rows, id, Rejected);
    }
  }

  /** A contribution is pending, so it stays out of every approved view
      until a manager approves it. */
  lemma ContributionIsPending(f: Submission, id: int, userId: int, rows: seq<TextRecord>)
    ensures Contribution(f, id, userId).status == Pending
    ensures ApprovedRows(rows + [Contribution(f, id, userId)]) == ApprovedRows(rows)
    ensures Contribution(f, id, userId).uniqueWords.value <= Contribution(f, id, userId).wordCount.value
  {
    FilterAppend(rows, [Contribution(f, id, userId)], IsApproved);
    ElementsBound(ContributionWords(f.contentZu, f.fullContentZu));
  }
}
