/** The lookup tables the form builds once a price list is loaded:
    `buildMainIndex` (price and note per `Size¦Series¦Material¦Seat`, the
    last row winning) and `buildCylIndex` (price and note per cylinder size,
    the first price winning and a note upgraded only from empty), and the
    load step that splits the rows before building them. */
module Indexes {
  import opened Strings
  import opened Csv
  import opened Rows

  /** The raw USD and CAD price strings of a row (`{ USD, CAD }`). */
  datatype PriceEntry = PriceEntry(usd: string, cad: string)

  const Sep: char := '¦'

  /** Column names the lookup tables read. */
  const SizeColumn := "Size"
  const SeriesColumn := "Series"
  const MaterialColumn := "Material"
  const SeatColumn := "Seat"
  const PriceColumn := "Price"
  const PriceCadColumn := "PriceCAD"
  const NoteColumn := "Note"
  const NotesProperty := "notes"

  /** `["Size", "Series", "Material", "Seat"].map(k => get(r, k)).join("¦")`. */
  function MainKey(r: Row): (k: string)
    ensures k == Join([Get(r, SizeColumn), Get(r, SeriesColumn), Get(r, MaterialColumn), Get(r, SeatColumn)], Sep)
  {
    JoinFour(Get(r, SizeColumn), Get(r, SeriesColumn), Get(r, MaterialColumn), Get(r, SeatColumn), Sep);
    Get(r, SizeColumn) + [Sep] + Get(r, SeriesColumn) + [Sep] + Get(r, MaterialColumn) + [Sep] + Get(r, SeatColumn)
  }

  /** Four fields joined with a separator none of the first three holds can
      be split back apart. */
  lemma JoinFourInjective(a1: string, a2: string, a3: string, a4: string,
                          b1: string, b2: string, b3: string, b4: string, c: char)
    requires c !in a1 && c !in a2 && c !in a3 && c !in b1 && c !in b2 && c !in b3
    requires a1 + [c] + a2 + [c] + a3 + [c] + a4 == b1 + [c] + b2 + [c] + b3 + [c] + b4
    ensures a1 == b1 && a2 == b2 && a3 == b3 && a4 == b4
  {
    assert a1 + [c] + a2 + [c] + a3 + [c] + a4 == a1 + [c] + (a2 + [c] + (a3 + [c] + a4));
    assert b1 + [c] + b2 + [c] + b3 + [c] + b4 == b1 + [c] + (b2 + [c] + (b3 + [c] + b4));
    SeparatedEqual(a1, a2 + [c] + (a3 + [c] + a4), b1, b2 + [c] + (b3 + [c] + b4), c);
    SeparatedEqual(a2, a3 + [c] + a4, b2, b3 + [c] + b4, c);
    SeparatedEqual(a3, a4, b3, b4, c);
  }

  /** Rows whose Size, Series and Material do not hold the separator have the
      same key only when all four fields agree, so the composite key loses
      nothing. */
  lemma MainKeyInjective(a: Row, b: Row)
    requires Sep !in Get(a, SizeColumn) && Sep !in Get(a, SeriesColumn) && Sep !in Get(a, MaterialColumn)
    requires Sep !in Get(b, SizeColumn) && Sep !in Get(b, SeriesColumn) && Sep !in Get(b, MaterialColumn)
    requires MainKey(a) == MainKey(b)
    ensures Get(a, SizeColumn) == Get(b, SizeColumn) && Get(a, SeriesColumn) == Get(b, SeriesColumn)
    ensures Get(a, MaterialColumn) == Get(b, MaterialColumn) && Get(a, SeatColumn) == Get(b, SeatColumn)
  {
    JoinFourInjective(Get(a, SizeColumn), Get(a, SeriesColumn), Get(a, MaterialColumn), Get(a, SeatColumn),
                      Get(b, SizeColumn), Get(b, SeriesColumn), Get(b, MaterialColumn), Get(b, SeatColumn), Sep);
  }

  function EntryOf(r: Row): PriceEntry
  {
    PriceEntry(Get(r, PriceColumn), Get(r, PriceCadColumn))
  }

  /** `get(r, "Note") || r.notes || ""`: the trimmed Note column, else the
      raw `notes` property, else "". */
  function NoteOf(r: Row): (n: string)
    ensures Get(r, NoteColumn) != "" ==> n == Get(r, NoteColumn)
    ensures Get(r, NoteColumn) == "" && NotesProperty in r ==> n == r[NotesProperty]
    ensures Get(r, NoteColumn) == "" && NotesProperty !in r ==> n == ""
  {
    if Get(r, NoteColumn) != "" then Get(r, NoteColumn)
    else if NotesProperty in r then r[NotesProperty]
    else ""
  }

  // ---------------------------------------------------------------------
  // The three ways of filling a map, over a sequence of keys and a sequence
  // of values visited in order
  // ---------------------------------------------------------------------

  /** The keys that are not empty. */
  function NonEmptyKeys(keys: seq<string>): set<string>
  {
    set k | k in keys && k != ""
  }

  /** `m.set(k, v)` for every pair in order: the last write wins. */
  function Assign<V>(keys: seq<string>, vals: seq<V>): (m: map<string, V>)
    requires |keys| == |vals|
    ensures m.Keys == set k | k in keys
  {
    if keys == [] then map[]
    else
      var n := |keys| - 1;
      assert keys == keys[..n] + [keys[n]];
      Assign(keys[..n], vals[..n])[keys[n] := vals[n]]
  }

  /** `if (k && !m.has(k)) m.set(k, v)`: empty keys are skipped and the first
      write wins. */
  function KeepFirst<V>(keys: seq<string>, vals: seq<V>): map<string, V>
    requires |keys| == |vals|
  {
    if keys == [] then map[]
    else
      var n := |keys| - 1;
      var m := KeepFirst(keys[..n], vals[..n]);
      if keys[n] == "" || keys[n] in m then m else m[keys[n] := vals[n]]
  }

  /** `if (k && (!m.has(k) || (!m.get(k) && note))) m.set(k, note)`: empty
      keys are skipped and a stored note is replaced only when it is empty
      and the new one is not. */
  function FillNotes(keys: seq<string>, notes: seq<string>): map<string, string>
    requires |keys| == |notes|
  {
    if keys == [] then map[]
    else
      var n := |keys| - 1;
      var m := FillNotes(keys[..n], notes[..n]);
      if keys[n] == "" then m
      else if keys[n] !in m || (m[keys[n]] == "" && notes[n] != "") then m[keys[n] := notes[n]]
      else m
  }

  /** The value under a key is the one paired with its last occurrence. */
  lemma {:induction false} AssignLastWins<V>(keys: seq<string>, vals: seq<V>, i: nat)
    requires |keys| == |vals| && i < |keys|
    requires forall j :: i < j < |keys| ==> keys[j] != keys[i]
    ensures keys[i] in Assign(keys, vals) && Assign(keys, vals)[keys[i]] == vals[i]
  {
    var n := |keys| - 1;
    if i < n {
      AssignLastWins(keys[..n], vals[..n], i);
    }
  }

  lemma {:induction false} KeepFirstKeys<V>(keys: seq<string>, vals: seq<V>)
    requires |keys| == |vals|
    ensures KeepFirst(keys, vals).Keys == NonEmptyKeys(keys)
  {
    if keys != [] {
      var n := |keys| - 1;
      KeepFirstKeys(keys[..n], vals[..n]);
      assert keys == keys[..n] + [keys[n]];
    }
  }

  /** The value under a non-empty key is the one paired with its first
      occurrence. */
  lemma {:induction false} KeepFirstWins<V>(keys: seq<string>, vals: seq<V>, i: nat)
    requires |keys| == |vals| && i < |keys| && keys[i] != ""
    requires forall j :: 0 <= j < i ==> keys[j] != keys[i]
    ensures keys[i] in KeepFirst(keys, vals) && KeepFirst(keys, vals)[keys[i]] == vals[i]
  {
    var n := |keys| - 1;
    KeepFirstKeys(keys[..n], vals[..n]);
    if i < n {
      KeepFirstWins(keys[..n], vals[..n], i);
    } else {
      assert keys[i] !in NonEmptyKeys(keys[..n]);
    }
  }

  /** One more step of each fold, on a prefix of the keys and values. */
  lemma AssignStep<V>(keys: seq<string>, vals: seq<V>, i: nat)
    requires |keys| == |vals| && i < |keys|
    ensures Assign(keys[..i + 1], vals[..i + 1]) == Assign(keys[..i], vals[..i])[keys[i] := vals[i]]
  {
    assert keys[..i + 1][..i] == keys[..i];
    assert vals[..i + 1][..i] == vals[..i];
  }

  lemma FoldSteps<V>(keys: seq<string>, vals: seq<V>, notes: seq<string>, i: nat)
    requires |keys| == |vals| == |notes| && i < |keys|
    ensures Assign(keys[..i + 1], vals[..i + 1]) == Assign(keys[..i], vals[..i])[keys[i] := vals[i]]
    ensures var m := KeepFirst(keys[..i], vals[..i]);
            KeepFirst(keys[..i + 1], vals[..i + 1]) ==
              if keys[i] == "" || keys[i] in m then m else m[keys[i] := vals[i]]
    ensures var m := FillNotes(keys[..i], notes[..i]);
            FillNotes(keys[..i + 1], notes[..i + 1]) ==
              if keys[i] == "" then m
              else if keys[i] !in m || (m[keys[i]] == "" && notes[i] != "") then m[keys[i] := notes[i]]
              else m
  {
    assert keys[..i + 1][..i] == keys[..i];
    assert vals[..i + 1][..i] == vals[..i];
    assert notes[..i + 1][..i] == notes[..i];
  }

  lemma {:induction false} FillNotesKeys(keys: seq<string>, notes: seq<string>)
    requires |keys| == |notes|
    ensures FillNotes(keys, notes).Keys == NonEmptyKeys(keys)
  {
    if keys != [] {
      var n := |keys| - 1;
      FillNotesKeys(keys[..n], notes[..n]);
      assert keys == keys[..n] + [keys[n]];
    }
  }

  /** The first non-empty note paired with key `k`, or "". */
  function FirstNote(keys: seq<string>, notes: seq<string>, k: string): string
    requires |keys| == |notes|
  {
    if keys == [] then ""
    else if keys[0] == k && notes[0] != "" then notes[0]
    else FirstNote(keys[1..], notes[1..], k)
  }

  lemma {:induction false} FirstNoteSnoc(keys: seq<string>, notes: seq<string>, k: string)
    requires |keys| == |notes| && keys != []
    ensures var n := |keys| - 1;
            FirstNote(keys, notes, k) ==
              if FirstNote(keys[..n], notes[..n], k) != "" then FirstNote(keys[..n], notes[..n], k)
              else if keys[n] == k then notes[n] else ""
  {
    var n := |keys| - 1;
    if n > 0 {
      FirstNoteSnoc(keys[1..], notes[1..], k);
      assert keys[1..][..n - 1] == keys[..n][1..];
      assert notes[1..][..n - 1] == notes[..n][1..];
    }
  }

  lemma {:induction false} NoKeyNoNote(keys: seq<string>, notes: seq<string>, k: string)
    requires |keys| == |notes| && k !in keys
    ensures FirstNote(keys, notes, k) == ""
  {
    if keys != [] {
      assert keys[0] in keys;
      assert forall x :: x in keys[1..] ==> x in keys;
      NoKeyNoNote(keys[1..], notes[1..], k);
    }
  }

  /** Each non-empty key holds the first non-empty note paired with it, or ""
      when all of its notes are empty. */
  lemma {:induction false} FillNotesFirstNonEmpty(keys: seq<string>, notes: seq<string>, k: string)
    requires |keys| == |notes| && k != "" && k in keys
    ensures k in FillNotes(keys, notes) && FillNotes(keys, notes)[k] == FirstNote(keys, notes, k)
  {
    var n := |keys| - 1;
    FirstNoteSnoc(keys, notes, k);
    FillNotesKeys(keys[..n], notes[..n]);
    assert keys == keys[..n] + [keys[n]];
    if k in keys[..n] {
      FillNotesFirstNonEmpty(keys[..n], notes[..n], k);
    } else {
      NoKeyNoNote(keys[..n], notes[..n], k);
    }
  }

  // ---------------------------------------------------------------------
  // The four indexes as functions of the rows
  // ---------------------------------------------------------------------

  function MainKeys(rows: seq<Row>): (ks: seq<string>)
    ensures |ks| == |rows| && forall i :: 0 <= i < |rows| ==> ks[i] == MainKey(rows[i])
  {
    seq(|rows|, i requires 0 <= i < |rows| => MainKey(rows[i]))
  }

  function Entries(rows: seq<Row>): (es: seq<PriceEntry>)
    ensures |es| == |rows| && forall i :: 0 <= i < |rows| ==> es[i] == EntryOf(rows[i])
  {
    seq(|rows|, i requires 0 <= i < |rows| => EntryOf(rows[i]))
  }

  function MainNoteList(rows: seq<Row>): (ns: seq<string>)
    ensures |ns| == |rows| && forall i :: 0 <= i < |rows| ==> ns[i] == NoteOf(rows[i])
  {
    seq(|rows|, i requires 0 <= i < |rows| => NoteOf(rows[i]))
  }

  function SizeOf(r: Row): string { Get(r, SizeColumn) }

  function CylNoteOf(r: Row): string { Trim(NoteOf(r)) }

  function SizeList(rows: seq<Row>): (ks: seq<string>)
    ensures |ks| == |rows| && forall i :: 0 <= i < |rows| ==> ks[i] == SizeOf(rows[i])
  {
    seq(|rows|, i requires 0 <= i < |rows| => SizeOf(rows[i]))
  }

  function CylNoteList(rows: seq<Row>): (ns: seq<string>)
    ensures |ns| == |rows| && forall i :: 0 <= i < |rows| ==> ns[i] == CylNoteOf(rows[i])
  {
    seq(|rows|, i requires 0 <= i < |rows| => CylNoteOf(rows[i]))
  }

  function MainPrices(rows: seq<Row>): map<string, PriceEntry>
  {
    Assign(MainKeys(rows), Entries(rows))
  }

  function MainNotes(rows: seq<Row>): map<string, string>
  {
    Assign(MainKeys(rows), MainNoteList(rows))
  }

  function CylPrices(rows: seq<Row>): map<string, PriceEntry>
  {
    KeepFirst(SizeList(rows), Entries(rows))
  }

  function CylNotes(rows: seq<Row>): map<string, string>
  {
    FillNotes(SizeList(rows), CylNoteList(rows))
  }

  /** Both main maps hold exactly the keys of the rows, and each key holds
      the price and the note of the last row with that key. */
  lemma MainKeySet(rows: seq<Row>)
    ensures (set k | k in MainKeys(rows)) == set r | r in rows :: MainKey(r)
  {
    var ks := MainKeys(rows);
    forall k | k in ks ensures exists r :: r in rows && k == MainKey(r) {
      var j :| 0 <= j < |ks| && ks[j] == k;
      assert rows[j] in rows;
    }
    forall r | r in rows ensures MainKey(r) in ks {
      var j :| 0 <= j < |rows| && rows[j] == r;
      assert ks[j] == MainKey(r);
    }
  }

  lemma MainLastWins(rows: seq<Row>, i: nat)
    requires i < |rows|
    requires forall j :: i < j < |rows| ==> MainKey(rows[j]) != MainKey(rows[i])
    ensures MainPrices(rows).Keys == MainNotes(rows).Keys == set r | r in rows :: MainKey(r)
    ensures MainPrices(rows)[MainKey(rows[i])] == EntryOf(rows[i])
    ensures MainNotes(rows)[MainKey(rows[i])] == NoteOf(rows[i])
  {
    var ks := MainKeys(rows);
    MainKeySet(rows);
    AssignLastWins(ks, Entries(rows), i);
    AssignLastWins(ks, MainNoteList(rows), i);
  }

  /** Both cylinder maps hold exactly the non-empty sizes: rows without a
      size are skipped. */
  lemma CylIndexKeys(rows: seq<Row>)
    ensures CylPrices(rows).Keys == CylNotes(rows).Keys == NonEmptyKeys(SizeList(rows))
  {
    KeepFirstKeys(SizeList(rows), Entries(rows));
    FillNotesKeys(SizeList(rows), CylNoteList(rows));
  }

  /** Each size holds the price of the first row with that size. */
  lemma CylFirstPriceWins(rows: seq<Row>, i: nat)
    requires i < |rows| && SizeOf(rows[i]) != ""
    requires forall j :: 0 <= j < i ==> SizeOf(rows[j]) != SizeOf(rows[i])
    ensures SizeOf(rows[i]) in CylPrices(rows) && CylPrices(rows)[SizeOf(rows[i])] == EntryOf(rows[i])
  {
    var ks := SizeList(rows);
    assert forall j :: 0 <= j < i ==> ks[j] != ks[i];
    KeepFirstWins(ks, Entries(rows), i);
  }

  /** Each size holds the first non-empty trimmed note among its rows, or ""
      when every one of them is empty. */
  lemma CylFirstNoteWins(rows: seq<Row>, i: nat)
    requires i < |rows| && SizeOf(rows[i]) != ""
    ensures SizeOf(rows[i]) in CylNotes(rows)
    ensures CylNotes(rows)[SizeOf(rows[i])] == FirstNote(SizeList(rows), CylNoteList(rows), SizeOf(rows[i]))
  {
    var ks := SizeList(rows);
    assert ks[i] in ks;
    FillNotesFirstNonEmpty(ks, CylNoteList(rows), ks[i]);
  }

  // ---------------------------------------------------------------------
  // The loaded state
  // ---------------------------------------------------------------------

  /** The rows and the four maps of the form. */
  class Catalog {
    var priceRows: seq<Row>
    var cylRows: seq<Row>
    var mainPrice: map<string, PriceEntry>
    var mainNote: map<string, string>
    var cylPrice: map<string, PriceEntry>
    var cylNote: map<string, string>

    /** The indexes agree with the rows they were built from. */
    predicate Valid()
      reads this
    {
      mainPrice == MainPrices(priceRows) && mainNote == MainNotes(priceRows) &&
      cylPrice == CylPrices(cylRows) && cylNote == CylNotes(cylRows)
    }

    constructor ()
      ensures priceRows == [] && cylRows == []
      ensures Valid()
    {
      priceRows, cylRows := [], [];
      mainPrice, mainNote := map[], map[];
      cylPrice, cylNote := map[], map[];
    }

    /** `buildMainIndex`: clears both main maps and stores every price row. */
    method BuildMainIndex()
      modifies this
      ensures mainPrice == MainPrices(priceRows) && mainNote == MainNotes(priceRows)
      ensures priceRows == old(priceRows) && cylRows == old(cylRows)
      ensures cylPrice == old(cylPrice) && cylNote == old(cylNote)
    {
      var rows := priceRows;
      ghost var ks, es, ns := MainKeys(rows), Entries(rows), MainNoteList(rows);
      mainPrice := map[];
      mainNote := map[];
      for i := 0 to |rows|
        invariant priceRows == rows && cylRows == old(cylRows)
        invariant cylPrice == old(cylPrice) && cylNote == old(cylNote)
        invariant mainPrice == Assign(ks[..i], es[..i])
        invariant mainNote == Assign(ks[..i], ns[..i])
      {
        var r := rows[i];
        var key := MainKey(r);
        assert key == ks[i] && EntryOf(r) == es[i] && NoteOf(r) == ns[i];
        AssignStep(ks, es, i);
        AssignStep(ks, ns, i);
        mainPrice := mainPrice[key := EntryOf(r)];
        mainNote := mainNote[key := NoteOf(r)];
      }
      assert ks[..|rows|] == ks && es[..|rows|] == es && ns[..|rows|] == ns;
    }

    /** `buildCylIndex`: clears both cylinder maps and visits every cylinder
        row with a size, keeping the first price and filling an empty note. */
    method BuildCylIndex()
      modifies this
      ensures cylPrice == CylPrices(cylRows) && cylNote == CylNotes(cylRows)
      ensures priceRows == old(priceRows) && cylRows == old(cylRows)
      ensures mainPrice == old(mainPrice) && mainNote == old(mainNote)
    {
      var rows := cylRows;
      ghost var ks, es, ns := SizeList(rows), Entries(rows), CylNoteList(rows);
      cylPrice := map[];
      cylNote := map[];
      for i := 0 to |rows|
        invariant priceRows == old(priceRows) && cylRows == rows
        invariant mainPrice == old(mainPrice) && mainNote == old(mainNote)
        invariant cylPrice == KeepFirst(ks[..i], es[..i])
        invariant cylNote == FillNotes(ks[..i], ns[..i])
      {
        var r := rows[i];
        FoldSteps(ks, es, ns, i);
        var size := SizeOf(r);
        assert size == ks[i];
        if size != "" {
          var note := CylNoteOf(r);
          assert note == ns[i] && EntryOf(r) == es[i];
          if size !in cylPrice {
            cylPrice := cylPrice[size := EntryOf(r)];
          }
          if size !in cylNote || (cylNote[size] == "" && note != "") {
            cylNote := cylNote[size := note];
          }
        }
      }
      assert ks[..|rows|] == ks && es[..|rows|] == es && ns[..|rows|] == ns;
    }

    /** The file-load handler: parse the text (`;`-separated), split the rows
        with the series test `isCyl` and rebuild both indexes. */
    method Load(text: string, isCyl: string -> bool)
      modifies this
      ensures var all := TableRows(Records(text, ';'));
              priceRows == MainRows(all, isCyl) && cylRows == CylRows(all, isCyl)
      ensures Valid()
    {
      var all := ParseCsv(text, ';');
      priceRows := MainRows(all, isCyl);
      cylRows := CylRows(all, isCyl);
      BuildMainIndex();
      BuildCylIndex();
    }
  }
}
