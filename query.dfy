/** The three catalog queries of fwget.py: `search`, `locate` and `list`.
    Each walks the index once, appending a tuple for every entry it keeps
    to `output_list`, sorts that list with `sorted(..., reverse=True)` on
    the tuple's first component, and emits one line per sorted tuple. */
module Query {
  import opened Text
  import opened Sorting
  import opened Catalog

  /** Which entries a query keeps. */
  datatype Rule =
    | AnyField(query: string)            // `search`: filename, description, target or deviceclass
    | NameOrDescription(query: string)   // `locate`: filename or description
    | Everything                         // `list`

  /** The `if`/`elif` conditions of the collecting loops: the lower-cased
      query occurs in one of the lower-cased fields the rule consults. */
  predicate Keeps(rule: Rule, e: Entry)
  {
    match rule
    case AnyField(q) =>
      Contains(Lower(e.0), Lower(q)) || Contains(Lower(e.1.description), Lower(q))
      || Contains(Lower(e.1.target), Lower(q)) || Contains(Lower(e.1.deviceclass), Lower(q))
    case NameOrDescription(q) =>
      Contains(Lower(e.0), Lower(q)) || Contains(Lower(e.1.description), Lower(q))
    case Everything => true
  }

  /** `search` keeps an entry exactly when the lower-cased query occurs at
      some offset of one of its four lower-cased text fields. */
  lemma SearchKeepsIff(q: string, e: Entry)
    ensures Keeps(AnyField(q), e) <==>
      IsSubstring(Lower(q), Lower(e.0)) || IsSubstring(Lower(q), Lower(e.1.description))
      || IsSubstring(Lower(q), Lower(e.1.target)) || IsSubstring(Lower(q), Lower(e.1.deviceclass))
  {
    ContainsIff(Lower(e.0), Lower(q));
    ContainsIff(Lower(e.1.description), Lower(q));
    ContainsIff(Lower(e.1.target), Lower(q));
    ContainsIff(Lower(e.1.deviceclass), Lower(q));
  }

  /** `locate` keeps an entry exactly when the lower-cased query occurs in its
      lower-cased filename or description; target and deviceclass play no part. */
  lemma LocateKeepsIff(q: string, e: Entry)
    ensures Keeps(NameOrDescription(q), e) <==>
      IsSubstring(Lower(q), Lower(e.0)) || IsSubstring(Lower(q), Lower(e.1.description))
  {
    ContainsIff(Lower(e.0), Lower(q));
    ContainsIff(Lower(e.1.description), Lower(q));
  }

  /** Neither rule cares about the case of the query. */
  lemma KeepsCaseInsensitive(q: string, e: Entry)
    ensures Keeps(AnyField(Lower(q)), e) == Keeps(AnyField(q), e)
    ensures Keeps(NameOrDescription(Lower(q)), e) == Keeps(NameOrDescription(q), e)
  {
    LowerIdempotent(q);
  }

  // ---------------------------------------------------------------------
  // The collecting loop, as a reference function.

  /** `row(e)` for every entry `e` the rule keeps, in index order. */
  function Select<R>(index: Index, rule: Rule, row: Entry -> R): seq<R>
  {
    if |index| == 0 then []
    else
      var n := |index| - 1;
      Select(index[..n], rule, row) + (if Keeps(rule, index[n]) then [row(index[n])] else [])
  }

  /** One more step of the collecting loop. */
  lemma SelectSnoc<R>(index: Index, i: nat, rule: Rule, row: Entry -> R)
    requires i < |index|
    ensures Select(index[..i + 1], rule, row)
         == Select(index[..i], rule, row) + (if Keeps(rule, index[i]) then [row(index[i])] else [])
  {
    assert index[..i + 1][..i] == index[..i];
  }

  /** A row is collected exactly when some kept entry produced it. */
  lemma {:induction false} SelectMembers<R>(index: Index, rule: Rule, row: Entry -> R, x: R)
    ensures x in Select(index, rule, row) <==>
      exists i :: 0 <= i < |index| && Keeps(rule, index[i]) && x == row(index[i])
    decreases |index|
  {
    if |index| > 0 {
      var n := |index| - 1;
      SelectMembers(index[..n], rule, row, x);
      if x in Select(index[..n], rule, row) {
        var i :| 0 <= i < n && Keeps(rule, index[..n][i]) && x == row(index[..n][i]);
        assert index[i] == index[..n][i];
      }
      if exists i :: 0 <= i < |index| && Keeps(rule, index[i]) && x == row(index[i]) {
        var i :| 0 <= i < |index| && Keeps(rule, index[i]) && x == row(index[i]);
        if i < n {
          assert index[..n][i] == index[i];
        }
      }
    }
  }

  /** When rows carry the filename and filenames are unique, every kept
      entry is collected exactly once and every other entry not at all. */
  lemma {:induction false} SelectCount<R>(index: Index, rule: Rule, row: Entry -> R, i: int)
    requires UniqueKeys(index)
    requires forall e1: Entry, e2: Entry :: row(e1) == row(e2) ==> e1.0 == e2.0
    requires 0 <= i < |index|
    ensures multiset(Select(index, rule, row))[row(index[i])] == if Keeps(rule, index[i]) then 1 else 0
    decreases |index|
  {
    var n := |index| - 1;
    if i == n {
      SelectLastAbsent(index, rule, row);
      SelectCountStep(index, rule, row, row(index[i]));
    } else {
      PrefixUnique(index, n);
      assert index[..n][i] == index[i];
      SelectCount(index[..n], rule, row, i);
      assert row(index[n]) != row(index[i]) by {
        assert index[n].0 != index[i].0;
      }
      SelectCountStep(index, rule, row, row(index[i]));
    }
  }

  /** How the last entry changes the count of a row. */
  lemma SelectCountStep<R>(index: Index, rule: Rule, row: Entry -> R, x: R)
    requires |index| > 0
    ensures var n := |index| - 1;
      multiset(Select(index, rule, row))[x]
      == multiset(Select(index[..n], rule, row))[x]
         + (if Keeps(rule, index[n]) && row(index[n]) == x then 1 else 0)
  {
    var n := |index| - 1;
    var last := if Keeps(rule, index[n]) then [row(index[n])] else [];
    assert Select(index, rule, row) == Select(index[..n], rule, row) + last;
    assert multiset(Select(index, rule, row)) == multiset(Select(index[..n], rule, row)) + multiset(last);
  }

  lemma PrefixUnique(index: Index, n: nat)
    requires UniqueKeys(index) && n <= |index|
    ensures UniqueKeys(index[..n])
  {
    var prefix := index[..n];
    forall a, b | 0 <= a < b < |prefix| ensures prefix[a].0 != prefix[b].0 {
      assert prefix[a] == index[a] && prefix[b] == index[b];
    }
  }

  /** The last entry's row is not among the rows collected before it. */
  lemma SelectLastAbsent<R>(index: Index, rule: Rule, row: Entry -> R)
    requires UniqueKeys(index) && |index| > 0
    requires forall e1: Entry, e2: Entry :: row(e1) == row(e2) ==> e1.0 == e2.0
    ensures row(index[|index| - 1]) !in Select(index[..|index| - 1], rule, row)
  {
    var n := |index| - 1;
    var x := row(index[n]);
    SelectMembers(index[..n], rule, row, x);
    forall m | 0 <= m < n ensures x != row(index[..n][m]) {
      assert index[..n][m] == index[m];
      assert index[m].0 != index[n].0;
    }
  }

  /** Entries that agree on what a rule consults and on the collected row
      give the same collected list. */
  lemma {:induction false} SelectCongruent<R>(a: Index, b: Index, ruleA: Rule, ruleB: Rule,
                                              rowA: Entry -> R, rowB: Entry -> R)
    requires |a| == |b|
    requires forall i :: 0 <= i < |a| ==> Keeps(ruleA, a[i]) == Keeps(ruleB, b[i])
    requires forall i :: 0 <= i < |a| && Keeps(ruleA, a[i]) ==> rowA(a[i]) == rowB(b[i])
    ensures Select(a, ruleA, rowA) == Select(b, ruleB, rowB)
    decreases |a|
  {
    if |a| > 0 {
      var n := |a| - 1;
      assert forall i :: 0 <= i < n ==> a[..n][i] == a[i] && b[..n][i] == b[i];
      SelectCongruent(a[..n], b[..n], ruleA, ruleB, rowA, rowB);
    }
  }

  /** A rule that keeps every entry collects one row per entry, in order. */
  lemma {:induction false} SelectAll<R>(index: Index, rule: Rule, row: Entry -> R)
    requires forall i :: 0 <= i < |index| ==> Keeps(rule, index[i])
    ensures |Select(index, rule, row)| == |index|
    ensures forall i :: 0 <= i < |index| ==> Select(index, rule, row)[i] == row(index[i])
    decreases |index|
  {
    if |index| > 0 {
      var n := |index| - 1;
      assert forall i :: 0 <= i < n ==> index[..n][i] == index[i];
      SelectAll(index[..n], rule, row);
    }
  }

  /** The empty query is a substring of every field, so it keeps everything. */
  lemma EmptyQueryKeepsAll(e: Entry)
    ensures Keeps(AnyField(""), e) && Keeps(NameOrDescription(""), e)
  {
    assert Lower("") == "";
  }

  // ---------------------------------------------------------------------
  // Output lines.

  /** A printed line: the name left-justified in `width` columns, three
      spaces, then the description with its non-ASCII characters dropped. */
  function FormatLine(name: string, desc: string, width: nat): (line: string)
    ensures var col := (if |name| < width then width else |name|) + 3;
      && |line| == col + |AsciiOnly(desc)|
      && line[..|name|] == name
      && (forall i :: |name| <= i < col ==> line[i] == ' ')
      && line[col..] == AsciiOnly(desc)
      && (forall i :: col <= i < |line| ==> IsAscii(line[i]))
  {
    var padded := LJust(name, width);
    assert (padded + "   ")[..|name|] == padded[..|name|];
    padded + "   " + AsciiOnly(desc)
  }

  function SearchLine(r: SearchRow): string { FormatLine(r.filename, r.description, 66) }
  function ListLine(r: ListRow): string { FormatLine(r.filename, r.description, 33) }
  function LocateLine(contentUrl: string, r: LocateRow): string { contentUrl + "/" + r.filename }

  /** The closing `for tup in sorted_list: print(...)` loop of each query:
      one line per row, in row order. */
  method EmitLines<R>(rows: seq<R>, line: R -> string) returns (lines: seq<string>)
    ensures |lines| == |rows|
    ensures forall k :: 0 <= k < |rows| ==> lines[k] == line(rows[k])
  {
    lines := [];
    for k := 0 to |rows|
      invariant |lines| == k
      invariant forall m :: 0 <= m < k ==> lines[m] == line(rows[m])
    {
      lines := lines + [line(rows[k])];
    }
  }

  // ---------------------------------------------------------------------
  // search

  function SearchResult(q: string, index: Index): seq<SearchRow>
  {
    SortDesc(Select(index, AnyField(q), SearchRowOf), SearchDate)
  }

  /** The lines `search` prints. */
  function SearchOutput(q: string, index: Index): seq<string>
  {
    var rows := SearchResult(q, index);
    seq(|rows|, k requires 0 <= k < |rows| => SearchLine(rows[k]))
  }

  /** `search(searchstring, json_index)`: returns the sorted tuples and the
      printed lines. */
  method Search(searchstring: string, jsonIndex: Index) returns (rows: seq<SearchRow>, lines: seq<string>)
    ensures rows == SearchResult(searchstring, jsonIndex)
    ensures |lines| == |rows|
    ensures forall k :: 0 <= k < |rows| ==> lines[k] == SearchLine(rows[k])
    ensures lines == SearchOutput(searchstring, jsonIndex)
  {
    var outputList: seq<SearchRow> := [];
    var i := 0;
    while i < |jsonIndex|
      invariant 0 <= i <= |jsonIndex|
      invariant outputList == Select(jsonIndex[..i], AnyField(searchstring), SearchRowOf)
    {
      var fw := jsonIndex[i].0;
      var rec := jsonIndex[i].1;
      var row := SearchRow(rec.date, fw, rec.description, rec.target, rec.deviceclass);
      SelectSnoc(jsonIndex, i, AnyField(searchstring), SearchRowOf);
      if Contains(Lower(fw), Lower(searchstring)) {
        outputList := outputList + [row];
      } else if Contains(Lower(rec.description), Lower(searchstring)) {
        outputList := outputList + [row];
      } else if Contains(Lower(rec.target), Lower(searchstring)) {
        outputList := outputList + [row];
      } else if Contains(Lower(rec.deviceclass), Lower(searchstring)) {
        outputList := outputList + [row];
      }
      i := i + 1;
    }
    assert jsonIndex[..i] == jsonIndex;
    rows := SortedReverse(outputList, SearchDate);
    lines := EmitLines(rows, SearchLine);
  }

  /** Soundness and completeness of `search`: a row is returned exactly when
      a matching index entry produced it. */
  lemma SearchMembers(q: string, index: Index, r: SearchRow)
    ensures r in SearchResult(q, index) <==>
      exists i :: 0 <= i < |index| && Keeps(AnyField(q), index[i]) && r == SearchRowOf(index[i])
  {
    var collected := Select(index, AnyField(q), SearchRowOf);
    SortDescPermutation(collected, SearchDate);
    SelectMembers(index, AnyField(q), SearchRowOf, r);
    assert r in SearchResult(q, index) <==> r in multiset(SearchResult(q, index));
    assert r in collected <==> r in multiset(collected);
  }

  /** Each matching entry is returned exactly once (the `elif` chain appends at
      most one tuple per entry); a non-matching entry is not returned. */
  lemma SearchExactlyOnce(q: string, index: Index, i: int)
    requires UniqueKeys(index) && 0 <= i < |index|
    ensures multiset(SearchResult(q, index))[SearchRowOf(index[i])]
         == if Keeps(AnyField(q), index[i]) then 1 else 0
  {
    SortDescPermutation(Select(index, AnyField(q), SearchRowOf), SearchDate);
    SelectCount(index, AnyField(q), SearchRowOf, i);
  }

  /** `search` output is by date, newest first, as a plain string comparison. */
  lemma SearchOrdered(q: string, index: Index)
    ensures forall i, j :: 0 <= i < j < |SearchResult(q, index)| ==>
      LexLe(SearchResult(q, index)[j].date, SearchResult(q, index)[i].date)
  {
    SortDescSorted(Select(index, AnyField(q), SearchRowOf), SearchDate);
  }

  /** Rows with the same date keep the index's iteration order. */
  lemma SearchTiesKeepIndexOrder(q: string, index: Index, date: string)
    ensures WithKey(SearchResult(q, index), SearchDate, date)
         == WithKey(Select(index, AnyField(q), SearchRowOf), SearchDate, date)
  {
    SortDescStable(Select(index, AnyField(q), SearchRowOf), SearchDate, date);
  }

  /** The empty query returns a permutation of the whole index. */
  lemma SearchEmptyQuery(index: Index)
    ensures multiset(SearchResult("", index)) == multiset(seq(|index|, i requires 0 <= i < |index| => SearchRowOf(index[i])))
  {
    forall i | 0 <= i < |index| ensures Keeps(AnyField(""), index[i]) {
      EmptyQueryKeepsAll(index[i]);
    }
    SelectAll(index, AnyField(""), SearchRowOf);
    SortDescPermutation(Select(index, AnyField(""), SearchRowOf), SearchDate);
    assert Select(index, AnyField(""), SearchRowOf)
        == seq(|index|, i requires 0 <= i < |index| => SearchRowOf(index[i]));
  }

  /** The case of the search term does not matter. */
  lemma SearchCaseInsensitive(q: string, index: Index)
    ensures SearchResult(Lower(q), index) == SearchResult(q, index)
  {
    forall i | 0 <= i < |index| ensures Keeps(AnyField(Lower(q)), index[i]) == Keeps(AnyField(q), index[i]) {
      KeepsCaseInsensitive(q, index[i]);
    }
    SelectCongruent(index, index, AnyField(Lower(q)), AnyField(q), SearchRowOf, SearchRowOf);
  }

  // ---------------------------------------------------------------------
  // locate

  function LocateResult(q: string, index: Index): seq<LocateRow>
  {
    SortDesc(Select(index, NameOrDescription(q), LocateRowOf), LocateDate)
  }

  /** The URLs `locate` prints. */
  function LocateOutput(q: string, index: Index, contentUrl: string): seq<string>
  {
    var rows := LocateResult(q, index);
    seq(|rows|, k requires 0 <= k < |rows| => LocateLine(contentUrl, rows[k]))
  }

  /** `locate(searchstring, json_index, content_url)`: returns the sorted
      tuples and the printed URLs. */
  method Locate(searchstring: string, jsonIndex: Index, contentUrl: string)
    returns (rows: seq<LocateRow>, lines: seq<string>)
    ensures rows == LocateResult(searchstring, jsonIndex)
    ensures |lines| == |rows|
    ensures forall k :: 0 <= k < |rows| ==> lines[k] == contentUrl + "/" + rows[k].filename
    ensures lines == LocateOutput(searchstring, jsonIndex, contentUrl)
  {
    var outputList: seq<LocateRow> := [];
    var i := 0;
    while i < |jsonIndex|
      invariant 0 <= i <= |jsonIndex|
      invariant outputList == Select(jsonIndex[..i], NameOrDescription(searchstring), LocateRowOf)
    {
      var fw := jsonIndex[i].0;
      var rec := jsonIndex[i].1;
      SelectSnoc(jsonIndex, i, NameOrDescription(searchstring), LocateRowOf);
      if Contains(Lower(fw), Lower(searchstring)) {
        outputList := outputList + [LocateRow(rec.date, fw, rec.description)];
      } else if Contains(Lower(rec.description), Lower(searchstring)) {
        outputList := outputList + [LocateRow(rec.date, fw, rec.description)];
      }
      i := i + 1;
    }
    assert jsonIndex[..i] == jsonIndex;
    rows := SortedReverse(outputList, LocateDate);
    lines := EmitLines(rows, r => LocateLine(contentUrl, r));
  }

  /** Soundness and completeness of `locate`. */
  lemma LocateMembers(q: string, index: Index, r: LocateRow)
    ensures r in LocateResult(q, index) <==>
      exists i :: 0 <= i < |index| && Keeps(NameOrDescription(q), index[i]) && r == LocateRowOf(index[i])
  {
    var collected := Select(index, NameOrDescription(q), LocateRowOf);
    SortDescPermutation(collected, LocateDate);
    SelectMembers(index, NameOrDescription(q), LocateRowOf, r);
    assert r in LocateResult(q, index) <==> r in multiset(LocateResult(q, index));
    assert r in collected <==> r in multiset(collected);
  }

  lemma LocateExactlyOnce(q: string, index: Index, i: int)
    requires UniqueKeys(index) && 0 <= i < |index|
    ensures multiset(LocateResult(q, index))[LocateRowOf(index[i])]
         == if Keeps(NameOrDescription(q), index[i]) then 1 else 0
  {
    SortDescPermutation(Select(index, NameOrDescription(q), LocateRowOf), LocateDate);
    SelectCount(index, NameOrDescription(q), LocateRowOf, i);
  }

  lemma LocateOrdered(q: string, index: Index)
    ensures forall i, j :: 0 <= i < j < |LocateResult(q, index)| ==>
      LexLe(LocateResult(q, index)[j].date, LocateResult(q, index)[i].date)
  {
    SortDescSorted(Select(index, NameOrDescription(q), LocateRowOf), LocateDate);
  }

  lemma LocateTiesKeepIndexOrder(q: string, index: Index, date: string)
    ensures WithKey(LocateResult(q, index), LocateDate, date)
         == WithKey(Select(index, NameOrDescription(q), LocateRowOf), LocateDate, date)
  {
    SortDescStable(Select(index, NameOrDescription(q), LocateRowOf), LocateDate, date);
  }

  /** `locate` never consults target or deviceclass: two indexes that differ
      only in those fields give the same result. */
  lemma LocateIgnoresTargetAndClass(q: string, a: Index, b: Index)
    requires |a| == |b|
    requires forall i :: 0 <= i < |a| ==>
      a[i].0 == b[i].0 && a[i].1.date == b[i].1.date && a[i].1.description == b[i].1.description
    ensures LocateResult(q, a) == LocateResult(q, b)
  {
    SelectCongruent(a, b, NameOrDescription(q), NameOrDescription(q), LocateRowOf, LocateRowOf);
  }

  /** The empty query locates every entry. */
  lemma LocateEmptyQuery(index: Index)
    ensures multiset(LocateResult("", index)) == multiset(seq(|index|, i requires 0 <= i < |index| => LocateRowOf(index[i])))
  {
    forall i | 0 <= i < |index| ensures Keeps(NameOrDescription(""), index[i]) {
      EmptyQueryKeepsAll(index[i]);
    }
    SelectAll(index, NameOrDescription(""), LocateRowOf);
    SortDescPermutation(Select(index, NameOrDescription(""), LocateRowOf), LocateDate);
    assert Select(index, NameOrDescription(""), LocateRowOf)
        == seq(|index|, i requires 0 <= i < |index| => LocateRowOf(index[i]));
  }

  // ---------------------------------------------------------------------
  // list

  function ListResult(index: Index): seq<ListRow>
  {
    SortDesc(Select(index, Everything, ListRowOf), ListName)
  }

  /** The lines `list` prints. */
  function ListOutput(index: Index): seq<string>
  {
    var rows := ListResult(index);
    seq(|rows|, k requires 0 <= k < |rows| => ListLine(rows[k]))
  }

  /** `list(json_index)`: returns the sorted tuples and the printed lines. */
  method List(jsonIndex: Index) returns (rows: seq<ListRow>, lines: seq<string>)
    ensures rows == ListResult(jsonIndex)
    ensures |lines| == |rows|
    ensures forall k :: 0 <= k < |rows| ==> lines[k] == ListLine(rows[k])
    ensures lines == ListOutput(jsonIndex)
  {
    var outputList: seq<ListRow> := [];
    var i := 0;
    while i < |jsonIndex|
      invariant 0 <= i <= |jsonIndex|
      invariant outputList == Select(jsonIndex[..i], Everything, ListRowOf)
    {
      var fw := jsonIndex[i].0;
      var rec := jsonIndex[i].1;
      SelectSnoc(jsonIndex, i, Everything, ListRowOf);
      outputList := outputList + [ListRow(fw, rec.description)];
      i := i + 1;
    }
    assert jsonIndex[..i] == jsonIndex;
    rows := SortedReverse(outputList, ListName);
    lines := EmitLines(rows, ListLine);
  }

  /** `list` returns every entry exactly once. */
  lemma ListExactlyOnce(index: Index, i: int)
    requires UniqueKeys(index) && 0 <= i < |index|
    ensures multiset(ListResult(index))[ListRowOf(index[i])] == 1
    ensures |ListResult(index)| == |index|
  {
    SortDescPermutation(Select(index, Everything, ListRowOf), ListName);
    SelectCount(index, Everything, ListRowOf, i);
    SelectAll(index, Everything, ListRowOf);
  }

  lemma ListOrdered(index: Index)
    ensures forall i, j :: 0 <= i < j < |ListResult(index)| ==>
      LexLe(ListResult(index)[j].filename, ListResult(index)[i].filename)
  {
    SortDescSorted(Select(index, Everything, ListRowOf), ListName);
  }

  /** `list` does not depend on the dictionary's iteration order: two
      iteration orders of the same dictionary give the same output. */
  lemma ListOrderIndependent(a: Index, b: Index)
    requires UniqueKeys(a) && UniqueKeys(b)
    requires forall e :: e in a <==> e in b
    ensures ListResult(a) == ListResult(b)
  {
    var sa := Select(a, Everything, ListRowOf);
    var sb := Select(b, Everything, ListRowOf);
    SortDescSorted(sa, ListName);
    SortDescSorted(sb, ListName);
    ListRowsDistinct(a);
    ListRowsDistinct(b);
    forall name ensures WithKey(ListResult(a), ListName, name) == WithKey(ListResult(b), ListName, name) {
      SortDescStable(sa, ListName, name);
      SortDescStable(sb, ListName, name);
      WithKeyAtMostOne(sa, ListName, name);
      WithKeyAtMostOne(sb, ListName, name);
      forall x ensures x in WithKey(sa, ListName, name) <==> x in WithKey(sb, ListName, name) {
        WithKeyMembers(sa, ListName, name, x);
        WithKeyMembers(sb, ListName, name, x);
        SelectMembers(a, Everything, ListRowOf, x);
        SelectMembers(b, Everything, ListRowOf, x);
        if x in sa {
          var i :| 0 <= i < |a| && x == ListRowOf(a[i]);
          assert a[i] in b;
          var j :| 0 <= j < |b| && b[j] == a[i];
          assert Keeps(Everything, b[j]);
        }
        if x in sb {
          var j :| 0 <= j < |b| && x == ListRowOf(b[j]);
          assert b[j] in a;
          var i :| 0 <= i < |a| && a[i] == b[j];
          assert Keeps(Everything, a[i]);
        }
      }
      AtMostOneEqual(WithKey(sa, ListName, name), WithKey(sb, ListName, name));
    }
    SortedUnique(ListResult(a), ListResult(b), ListName);
  }

  /** The rows `list` collects have pairwise different filenames. */
  lemma ListRowsDistinct(index: Index)
    requires UniqueKeys(index)
    ensures forall i, j :: 0 <= i < j < |Select(index, Everything, ListRowOf)| ==>
      ListName(Select(index, Everything, ListRowOf)[i]) != ListName(Select(index, Everything, ListRowOf)[j])
  {
    SelectAll(index, Everything, ListRowOf);
  }

  lemma FirstIn<T>(v: seq<T>)
    ensures |v| > 0 ==> v[0] in v
  {
  }

  lemma AtMostOneEqual<T>(u: seq<T>, v: seq<T>)
    requires |u| <= 1 && |v| <= 1
    requires forall x :: x in u <==> x in v
    ensures u == v
  {
    if |u| == 1 {
      assert u[0] in v;
    } else if |v| == 1 {
      FirstIn(v);
      assert false;
    }
  }
}
