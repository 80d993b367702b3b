/** Helpers over parsed rows: the case-tolerant accessor `get`, the split of
    the rows into main and cylinder rows, `uniq`, and the option-domain
    resolver `optionsFor` of the cascading selectors. */
module Rows {
  import opened Strings
  import opened Csv

  /** `get(r, k)`: the value under `k` if the row has that key, else the value
      under `k` in lower case, else "", trimmed in every case. */
  function Get(r: Row, k: string): (g: string)
    ensures Trim(g) == g
    ensures k !in r && Lower(k) !in r ==> g == ""
  {
    var v := if k in r then r[k] else if Lower(k) in r then r[Lower(k)] else "";
    TrimIdempotent(v);
    Trim(v)
  }

  /** Which key `get` reads, and that what it returns is trimmed. */
  lemma GetReads(r: Row, k: string)
    ensures k in r ==> Get(r, k) == Trim(r[k])
    ensures k !in r && Lower(k) in r ==> Get(r, k) == Trim(r[Lower(k)])
    ensures k !in r && Lower(k) !in r ==> Get(r, k) == ""
    ensures Trim(Get(r, k)) == Get(r, k)
  {
    TrimIdempotent(if k in r then r[k] else if Lower(k) in r then r[Lower(k)] else "");
  }

  /** A key already in lower case is looked up once. */
  lemma GetLowerKey(r: Row, k: string)
    requires Lower(k) == k
    ensures Get(r, k) == if k in r then Trim(r[k]) else ""
  {
  }

  /** On a parsed row, `get` under a header name gives the trimmed field of
      that header's last column. */
  lemma GetParsedField(headers: seq<string>, rec: seq<string>, i: nat)
    requires i < |headers| && LastOccurrence(headers, i)
    ensures Get(Zip(headers, rec), headers[i]) == FieldAt(rec, i)
  {
    ZipValue(headers, rec, i);
    TrimIdempotent(if i < |rec| then rec[i] else "");
  }

  // ---------------------------------------------------------------------
  // Main rows and cylinder rows
  // ---------------------------------------------------------------------

  /** `all.filter(r => !isCylinderSeries(get(r, "Series")))`. The series test
      is a parameter: `isCyl` stands for `isCylinderSeries`. */
  function MainRows(all: seq<Row>, isCyl: string -> bool): (main: seq<Row>)
    ensures |main| <= |all|
    ensures forall r :: r in main ==> r in all && !isCyl(Get(r, "Series"))
  {
    if all == [] then []
    else
      var rest := MainRows(all[1..], isCyl);
      if isCyl(Get(all[0], "Series")) then rest else [all[0]] + rest
  }

  /** `all.filter(r => isCylinderSeries(get(r, "Series")))`. */
  function CylRows(all: seq<Row>, isCyl: string -> bool): (cyl: seq<Row>)
    ensures |cyl| <= |all|
    ensures forall r :: r in cyl ==> r in all && isCyl(Get(r, "Series"))
  {
    if all == [] then []
    else
      var rest := CylRows(all[1..], isCyl);
      if isCyl(Get(all[0], "Series")) then [all[0]] + rest else rest
  }

  /** The two filters partition the rows: every row lands in exactly one of
      them, as often as it occurs, and nothing else does. */
  lemma {:induction false} SplitPartitions(all: seq<Row>, isCyl: string -> bool)
    ensures multiset(MainRows(all, isCyl)) + multiset(CylRows(all, isCyl)) == multiset(all)
    ensures |MainRows(all, isCyl)| + |CylRows(all, isCyl)| == |all|
  {
    if all != [] {
      SplitPartitions(all[1..], isCyl);
      assert all == [all[0]] + all[1..];
    }
  }

  // ---------------------------------------------------------------------
  // uniq and optionsFor
  // ---------------------------------------------------------------------

  predicate NoDuplicates(s: seq<string>)
  {
    forall i, j :: 0 <= i < j < |s| ==> s[i] != s[j]
  }

  /** `[...new Set(arr)]`: each value once, at its first occurrence. */
  function Uniq(s: seq<string>): (u: seq<string>)
    ensures NoDuplicates(u)
    ensures forall x :: x in u <==> x in s
  {
    if s == [] then []
    else
      var last := s[|s| - 1];
      var u := Uniq(s[..|s| - 1]);
      assert s == s[..|s| - 1] + [last];
      if last in u then u else u + [last]
  }

  /** `.filter(Boolean)` on strings: drops the empty ones. */
  function NonEmpty(s: seq<string>): (r: seq<string>)
    ensures forall x :: x in r <==> x in s && x != ""
    ensures NoDuplicates(s) ==> NoDuplicates(r)
  {
    if s == [] then []
    else
      var rest := NonEmpty(s[1..]);
      assert NoDuplicates(s) ==> NoDuplicates(s[1..]) && s[0] !in s[1..];
      if s[0] == "" then rest else [s[0]] + rest
  }

  /** A filter entry (field, value) holds for a row when the value is empty
      or the row's field equals the trimmed value. */
  predicate EntryHolds(r: Row, e: (string, string))
  {
    e.1 == "" || Get(r, e.0) == Trim(e.1)
  }

  predicate Matches(r: Row, filter: seq<(string, string)>)
  {
    forall i :: 0 <= i < |filter| ==> EntryHolds(r, filter[i])
  }

  function FilterRows(rows: seq<Row>, filter: seq<(string, string)>): (src: seq<Row>)
    ensures forall r :: r in src <==> r in rows && Matches(r, filter)
  {
    if rows == [] then []
    else
      var rest := FilterRows(rows[1..], filter);
      assert forall r :: r in rows <==> r == rows[0] || r in rows[1..];
      if Matches(rows[0], filter) then [rows[0]] + rest else rest
  }

  function Column(rows: seq<Row>, key: string): (vs: seq<string>)
    ensures |vs| == |rows|
    ensures forall i :: 0 <= i < |rows| ==> vs[i] == Get(rows[i], key)
  {
    seq(|rows|, i requires 0 <= i < |rows| => Get(rows[i], key))
  }

  /** `optionsFor(rows, key, filter)` without its final sort: the distinct
      non-empty values of `key` among the rows that match every entry of the
      filter (an absent filter is the empty one). */
  function OptionsFor(rows: seq<Row>, key: string, filter: seq<(string, string)>): (opts: seq<string>)
    ensures NoDuplicates(opts)
    ensures "" !in opts
    ensures forall x :: x in opts ==> exists r :: r in rows && Matches(r, filter) && Get(r, key) == x
    ensures forall r :: r in rows && Matches(r, filter) && Get(r, key) != "" ==> Get(r, key) in opts
  {
    var src := FilterRows(rows, filter);
    var vs := Column(src, key);
    var opts := NonEmpty(Uniq(vs));
    assert forall x :: x in vs ==> exists r :: r in src && Get(r, key) == x;
    assert forall r :: r in src ==> Get(r, key) in vs by {
      forall r | r in src ensures Get(r, key) in vs {
        var i :| 0 <= i < |src| && src[i] == r;
        assert vs[i] == Get(r, key);
      }
    }
    opts
  }

  /** An entry with an empty value constrains nothing. */
  lemma {:induction false} EmptyEntryIgnored(rows: seq<Row>, key: string, filter: seq<(string, string)>, field: string)
    ensures OptionsFor(rows, key, filter + [(field, "")]) == OptionsFor(rows, key, filter)
  {
    FilterWithEmptyEntry(rows, filter, field);
  }

  lemma {:induction false} FilterWithEmptyEntry(rows: seq<Row>, filter: seq<(string, string)>, field: string)
    ensures FilterRows(rows, filter + [(field, "")]) == FilterRows(rows, filter)
  {
    if rows != [] {
      var f2 := filter + [(field, "")];
      assert Matches(rows[0], f2) == Matches(rows[0], filter) by {
        assert forall i :: 0 <= i < |filter| ==> f2[i] == filter[i];
        assert EntryHolds(rows[0], f2[|filter|]);
      }
      FilterWithEmptyEntry(rows[1..], filter, field);
    }
  }

  /** Choosing one more value in the cascade can only narrow the next
      selector's options. */
  lemma MoreEntriesFewerOptions(rows: seq<Row>, key: string, filter: seq<(string, string)>, e: (string, string))
    ensures forall x :: x in OptionsFor(rows, key, filter + [e]) ==> x in OptionsFor(rows, key, filter)
  {
    forall x | x in OptionsFor(rows, key, filter + [e])
      ensures x in OptionsFor(rows, key, filter)
    {
      var r :| r in rows && Matches(r, filter + [e]) && Get(r, key) == x;
      assert Matches(r, filter) by {
        assert forall i :: 0 <= i < |filter| ==> (filter + [e])[i] == filter[i];
      }
    }
  }
}
