/** A row of the `texts` table. */
module Records {
  import opened Wrappers
  import opened Seqs

  /** The `status` column: contributions start `pending`, moderation sets
      `approved` or `rejected`; rows seeded by the application start
      `approved` (the column default). */
  datatype Status = Pending | Approved | Rejected

  /** One row of `texts`. The two `full_content` columns, `word_count`,
      `unique_words`, `source` and `user_id` may be NULL (`None`); the
      `date_added` timestamp is not modelled. */
  datatype TextRecord = TextRecord(
    id: int,
    title: string,
    titleEn: string,
    content: string,
    contentEn: string,
    fullContent: Option<string>,
    fullContentEn: Option<string>,
    category: string,
    wordCount: Option<int>,
    uniqueWords: Option<int>,
    source: Option<string>,
    userId: Option<int>,
    status: Status)

  predicate IsApproved(r: TextRecord) { r.status == Approved }

  /** `SELECT ... FROM texts WHERE status = 'approved'`, in table order. */
  function ApprovedRows(t: seq<TextRecord>): (a: seq<TextRecord>)
    ensures forall k :: 0 <= k < |a| ==> a[k] in t && a[k].status == Approved
    ensures forall k :: 0 <= k < |t| && t[k].status == Approved ==> t[k] in a
  {
    Filter(t, IsApproved)
  }

  /** The primary key: no two rows share an `id`. */
  predicate IdsUnique(t: seq<TextRecord>) {
    forall i, j :: 0 <= i < j < |t| ==> t[i].id != t[j].id
  }

  /** Keeping some rows of a table in their order keeps its keys unique. */
  lemma {:induction false} FilterKeepsIdsUnique(t: seq<TextRecord>, keep: TextRecord -> bool)
    requires IdsUnique(t)
    ensures IdsUnique(Filter(t, keep))
  {
    if t != [] {
      FilterKeepsIdsUnique(t[1..], keep);
      var rest := Filter(t[1..], keep);
      forall k | 0 <= k < |rest|
        ensures rest[k].id != t[0].id
      {
        var j :| 0 <= j < |t[1..]| && t[1..][j] == rest[k];
        assert t[j + 1] == rest[k];
      }
    }
  }
}
