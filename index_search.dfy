/** Title lookups in the dump's index: the first entry with a title, and
    every entry with it. */
module IndexSearch {
  import opened Wrappers
  import opened Sequences

  /** An index entry, with only the fields the lookups use: where the
      entry's block starts in the compressed dump, and the page title. */
  datatype IndexEntry = IndexEntry(start: nat, title: string)

  /** `find_entry`: the first entry whose title is the query. */
  method FindEntry(index: seq<IndexEntry>, title: string) returns (r: Option<IndexEntry>)
    ensures r.None? <==> forall i :: 0 <= i < |index| ==> index[i].title != title
    ensures r.Some? ==>
      exists i :: 0 <= i < |index| && index[i] == r.value && (forall j :: 0 <= j < i ==> index[j].title != title)
    ensures r.Some? ==> r.value.title == title
  {
    for i := 0 to |index|
      invariant forall j :: 0 <= j < i ==> index[j].title != title
    {
      var entry := index[i];
      if entry.title == title {
        return Some(entry);
      }
    }
    return None;
  }

  /** `find_entries`' filter: the entries with the queried title, in index
      order. */
  function Matching(index: seq<IndexEntry>, title: string): (entries: seq<IndexEntry>)
    ensures forall k :: 0 <= k < |entries| ==> entries[k].title == title
    ensures forall i :: 0 <= i < |index| && index[i].title == title ==> index[i] in entries
    ensures index == [] ==> entries == []
  {
    if index == [] then []
    else if index[0].title == title then [index[0]] + Matching(index[1..], title)
    else Matching(index[1..], title)
  }

  /** The filter keeps the index order: its result is a subsequence of the
      index. */
  lemma {:induction false} MatchingSubsequence(index: seq<IndexEntry>, title: string)
    ensures Subsequence(Matching(index, title), index)
  {
    if index != [] {
      MatchingSubsequence(index[1..], title);
      var m := Matching(index, title);
      if index[0].title == title {
        assert m[0] == index[0] && m[1..] == Matching(index[1..], title);
      } else if m != [] {
        assert m[0].title == title;
      }
    }
  }

  /** No entry is lost or duplicated: every matching entry is kept as often
      as it occurs in the index, and no other. */
  lemma {:induction false} MatchingCounts(index: seq<IndexEntry>, title: string, e: IndexEntry)
    ensures multiset(Matching(index, title))[e] == if e.title == title then multiset(index)[e] else 0
  {
    if index != [] {
      MatchingCounts(index[1..], title, e);
      assert index == [index[0]] + index[1..];
    }
  }

  /** Without a match the result is empty. */
  lemma {:induction false} NoMatchEmpty(index: seq<IndexEntry>, title: string)
    requires forall i :: 0 <= i < |index| ==> index[i].title != title
    ensures Matching(index, title) == []
  {
    if index != [] {
      NoMatchEmpty(index[1..], title);
    }
  }

  /** `find_entry` yields the front of what `find_entries` collects. */
  lemma {:induction false} FirstOfMatching(index: seq<IndexEntry>, title: string, i: nat)
    requires i < |index| && index[i].title == title
    requires forall j :: 0 <= j < i ==> index[j].title != title
    ensures Matching(index, title) != [] && Matching(index, title)[0] == index[i]
  {
    if i > 0 {
      FirstOfMatching(index[1..], title, i - 1);
    }
  }
}
