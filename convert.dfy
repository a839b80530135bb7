/**
 * `convert_csv_to_json` and `create_full_json_structure`: spreadsheet rows
 * become wine records, and the records are wrapped with the fixed steak and
 * sommelier-suggestion lists.
 */
module Converter {
  import opened Options
  import opened TextClean
  import opened Numbers

  // ---------------------------------------------------------------------
  // Fields and headers
  // ---------------------------------------------------------------------

  /** The 13 wine fields that are read from a column. */
  datatype Field =
    | Id | ReferralId | Name | Producer | OriginCountry | Region | GrapeType
    | WineType | Harvest | AlcoholLevel | AgingProcess | Harmonization | TasteDescription

  /** The lower-case header that names a field. */
  function HeaderKey(f: Field): string {
    match f
    case Id => "id"
    case ReferralId => "referralid"
    case Name => "name"
    case Producer => "producer"
    case OriginCountry => "origincountry"
    case Region => "region"
    case GrapeType => "grapetype"
    case WineType => "winetype"
    case Harvest => "harvest"
    case AlcoholLevel => "alcohollevel"
    case AgingProcess => "agingprocess"
    case Harmonization => "harmonization"
    case TasteDescription => "tastedescription"
  }

  /** The column a field is read from when no header names it. */
  function DefaultColumn(f: Field): (k: nat)
    ensures k < 13
  {
    match f
    case Id => 0
    case ReferralId => 1
    case Name => 2
    case Producer => 3
    case OriginCountry => 4
    case Region => 5
    case GrapeType => 6
    case WineType => 7
    case Harvest => 8
    case AlcoholLevel => 9
    case AgingProcess => 10
    case Harmonization => 11
    case TasteDescription => 12
  }

  /** The fixed layout gives every field a column of its own. */
  lemma DefaultColumnInjective(f: Field, g: Field)
    ensures DefaultColumn(f) == DefaultColumn(g) ==> f == g
  {
  }

  /** The chain of header comparisons: the field a cleaned, lower-cased header names, if any. */
  function FieldOfHeader(h: string): (r: Option<Field>)
    ensures r.Some? ==> HeaderKey(r.value) == h
    ensures r.None? ==> forall f: Field :: HeaderKey(f) != h
  {
    if h == "id" then Some(Id)
    else if h == "referralid" then Some(ReferralId)
    else if h == "name" then Some(Name)
    else if h == "producer" then Some(Producer)
    else if h == "origincountry" then Some(OriginCountry)
    else if h == "region" then Some(Region)
    else if h == "grapetype" then Some(GrapeType)
    else if h == "winetype" then Some(WineType)
    else if h == "harvest" then Some(Harvest)
    else if h == "alcohollevel" then Some(AlcoholLevel)
    else if h == "agingprocess" then Some(AgingProcess)
    else if h == "harmonization" then Some(Harmonization)
    else if h == "tastedescription" then Some(TasteDescription)
    else None
  }

  /** Every field's own header is recognised as that field, so no two fields share a header. */
  lemma FieldOfHeaderKey(f: Field)
    ensures FieldOfHeader(HeaderKey(f)) == Some(f)
  {
  }

  /** `clean_text(col).lower()`, looked up in the header chain. */
  function Recognized(col: string): Option<Field> {
    FieldOfHeader(Lower(CleanText(Text(col), false)))
  }

  /**
   * Headers are matched after cleaning and in any letter case: a quoted
   * header such as "\"ID\"" names the field its inside names.
   */
  lemma RecognizedQuoted(w: string, f: Field)
    requires forall i :: 0 <= i < |w| ==> !IsSpace(w[i])
    requires Lower(w) == HeaderKey(f)
    ensures Recognized(['"'] + w + ['"']) == Some(f)
  {
    CleanTextUnquotesOnce(w);
    FieldOfHeaderKey(f);
  }

  /** f applied to each element, in order. */
  function MapEach<A, B>(f: A -> B, xs: seq<A>): (ys: seq<B>)
    ensures |ys| == |xs| && forall i :: 0 <= i < |xs| ==> ys[i] == f(xs[i])
  {
    seq(|xs|, i requires 0 <= i < |xs| => f(xs[i]))
  }

  lemma MapEachAppend<A, B>(f: A -> B, a: seq<A>, b: seq<A>)
    ensures MapEach(f, a + b) == MapEach(f, a) + MapEach(f, b)
  {
    assert forall i :: |a| <= i < |a + b| ==> (a + b)[i] == b[i - |a|];
  }

  lemma MapEachPrefix<A, B>(f: A -> B, xs: seq<A>, i: nat)
    requires i < |xs|
    ensures MapEach(f, xs[..i + 1]) == MapEach(f, xs[..i]) + [f(xs[i])]
  {
    assert xs[..i + 1] == xs[..i] + [xs[i]];
    MapEachAppend(f, xs[..i], [xs[i]]);
  }

  /** The field each column names, column by column. */
  function RecognizedAll(cols: seq<string>): seq<Option<Field>> {
    MapEach(Recognized, cols)
  }

  /**
   * The mapping the loop over the columns builds from the fields they name:
   * each naming column sets its field to its index, so a later column
   * overrides an earlier one.
   */
  function MappingOf(fs: seq<Option<Field>>): map<Field, nat>
    decreases |fs|
  {
    if fs == [] then map[]
    else
      var m := MappingOf(fs[..|fs| - 1]);
      match fs[|fs| - 1]
      case Some(f) => m[f := |fs| - 1]
      case None => m
  }

  function HeaderMapping(cols: seq<string>): map<Field, nat> {
    MappingOf(RecognizedAll(cols))
  }

  /**
   * A field is mapped exactly when some column names it, and then it is
   * mapped to the last such column.
   */
  lemma {:induction false} MappingOfLastWins(fs: seq<Option<Field>>, f: Field)
    ensures f in MappingOf(fs) <==> exists i :: 0 <= i < |fs| && fs[i] == Some(f)
    ensures f in MappingOf(fs) ==>
      var i := MappingOf(fs)[f];
      && i < |fs| && fs[i] == Some(f)
      && forall j :: i < j < |fs| ==> fs[j] != Some(f)
    decreases |fs|
  {
    if fs != [] {
      var init := fs[..|fs| - 1];
      var n := |fs| - 1;
      MappingOfLastWins(init, f);
      assert forall i :: 0 <= i < n ==> init[i] == fs[i];
      if exists i :: 0 <= i < |fs| && fs[i] == Some(f) {
        var i :| 0 <= i < |fs| && fs[i] == Some(f);
        if i < n {
          assert init[i] == Some(f);
        }
      }
    }
  }

  /** One more column naming x. */
  lemma MappingOfSnoc(fs: seq<Option<Field>>, x: Option<Field>)
    ensures MappingOf(fs + [x]) ==
      match x
      case Some(f) => MappingOf(fs)[f := |fs|]
      case None => MappingOf(fs)
  {
    assert (fs + [x])[..|fs|] == fs;
  }

  /** The header mapping: a field is mapped iff a column names it, and to the last such column. */
  lemma HeaderMappingLastWins(cols: seq<string>, f: Field)
    ensures f in HeaderMapping(cols) <==> exists i :: 0 <= i < |cols| && Recognized(cols[i]) == Some(f)
    ensures f in HeaderMapping(cols) ==>
      var i := HeaderMapping(cols)[f];
      && i < |cols| && Recognized(cols[i]) == Some(f)
      && forall j :: i < j < |cols| ==> Recognized(cols[j]) != Some(f)
  {
    var fs := RecognizedAll(cols);
    MappingOfLastWins(fs, f);
    if exists i :: 0 <= i < |cols| && Recognized(cols[i]) == Some(f) {
      var i :| 0 <= i < |cols| && Recognized(cols[i]) == Some(f);
      assert fs[i] == Some(f);
    }
  }

  /** Columns that name no field leave the mapping as it was. */
  lemma HeaderMappingIgnores(cols: seq<string>, col: string)
    requires Recognized(col) == None
    ensures HeaderMapping(cols + [col]) == HeaderMapping(cols)
  {
    MapEachAppend(Recognized, cols, [col]);
    MappingOfSnoc(RecognizedAll(cols), None);
  }

  /** One more column: the mapping grows by what that column names. */
  lemma HeaderMappingSnoc(cols: seq<string>, i: nat)
    requires i < |cols|
    ensures HeaderMapping(cols[..i + 1]) ==
      match Recognized(cols[i])
      case Some(f) => HeaderMapping(cols[..i])[f := i]
      case None => HeaderMapping(cols[..i])
  {
    MapEachPrefix(Recognized, cols, i);
    MappingOfSnoc(RecognizedAll(cols[..i]), Recognized(cols[i]));
  }

  // ---------------------------------------------------------------------
  // Records
  // ---------------------------------------------------------------------

  /** A wine record: integer and float fields are optional (JSON null), text fields are strings. */
  datatype Wine = Wine(
    id: Option<int>,
    referralId: Option<int>,
    name: string,
    producer: string,
    originCountry: string,
    region: string,
    grapeType: string,
    wineType: string,
    harvest: Option<int>,
    alcoholLevel: Option<real>,
    price: Option<real>,
    importedBy: Option<string>,
    agingProcess: string,
    harmonization: string,
    tasteDescription: string)

  /** The column a field is read from: the mapped one, or else its fixed position. */
  function ColumnOf(m: map<Field, nat>, f: Field): nat {
    if f in m then m[f] else DefaultColumn(f)
  }

  /** A cell of a row; a position past the end reads as "". */
  function CellAt(row: seq<Cell>, k: nat): (c: Cell)
    ensures k < |row| ==> c == row[k]
    ensures k >= |row| ==> c == Text([])
  {
    if k < |row| then row[k] else Text([])
  }

  function Read(m: map<Field, nat>, row: seq<Cell>, f: Field): Cell {
    CellAt(row, ColumnOf(m, f))
  }

  /** The record built from one row. */
  function BuildWine(m: map<Field, nat>, row: seq<Cell>): Wine {
    Wine(
      ParseInt(Read(m, row, Id)),
      ParseInt(Read(m, row, ReferralId)),
      CleanText(Read(m, row, Name), false),
      CleanText(Read(m, row, Producer), false),
      CleanText(Read(m, row, OriginCountry), false),
      CleanText(Read(m, row, Region), false),
      CleanText(Read(m, row, GrapeType), false),
      CleanText(Read(m, row, WineType), false),
      ParseInt(Read(m, row, Harvest)),
      ParsePercent(Read(m, row, AlcoholLevel)),
      None,
      None,
      CleanText(Read(m, row, AgingProcess), false),
      CleanText(Read(m, row, Harmonization), true),
      CleanText(Read(m, row, TasteDescription), false))
  }

  /** `wine['name'] or wine['id']`: a non-empty name or a non-zero id. */
  predicate Keep(w: Wine) {
    w.name != [] || (w.id.Some? && w.id.value != 0)
  }

  function Builder(m: map<Field, nat>): seq<Cell> -> Wine {
    row => BuildWine(m, row)
  }

  /** The record of each row, in row order. */
  function Records(m: map<Field, nat>, rows: seq<seq<Cell>>): seq<Wine> {
    MapEach(Builder(m), rows)
  }

  /** The records with a name or an id, in order. */
  function KeptRecords(ws: seq<Wine>): seq<Wine>
    decreases |ws|
  {
    if ws == [] then []
    else
      var w := ws[|ws| - 1];
      KeptRecords(ws[..|ws| - 1]) + (if Keep(w) then [w] else [])
  }

  /** The records `convert_csv_to_json` returns for the rows under a mapping. */
  function Selected(m: map<Field, nat>, rows: seq<seq<Cell>>): seq<Wine> {
    KeptRecords(Records(m, rows))
  }

  /** Filtering never lengthens. */
  lemma {:induction false} KeptRecordsLength(ws: seq<Wine>)
    ensures |KeptRecords(ws)| <= |ws|
    decreases |ws|
  {
    if ws != [] {
      KeptRecordsLength(ws[..|ws| - 1]);
    }
  }

  /** Filtering keeps order: the records kept from two blocks are those of each, in turn. */
  lemma {:induction false} KeptRecordsAppend(a: seq<Wine>, b: seq<Wine>)
    ensures KeptRecords(a + b) == KeptRecords(a) + KeptRecords(b)
    decreases |b|
  {
    if b == [] {
      assert a + b == a;
    } else {
      var b' := b[..|b| - 1];
      assert (a + b)[..|a + b| - 1] == a + b';
      assert (a + b)[|a + b| - 1] == b[|b| - 1];
      KeptRecordsAppend(a, b');
    }
  }

  /** A record is kept exactly when it is present and has a name or an id. */
  lemma {:induction false} KeptRecordsMembers(ws: seq<Wine>, w: Wine)
    ensures w in KeptRecords(ws) <==> w in ws && Keep(w)
    decreases |ws|
  {
    if ws != [] {
      var init := ws[..|ws| - 1];
      KeptRecordsMembers(init, w);
      assert ws == init + [ws[|ws| - 1]];
    }
  }

  /** There are never more records than rows. */
  lemma SelectedLength(m: map<Field, nat>, rows: seq<seq<Cell>>)
    ensures |Selected(m, rows)| <= |rows|
  {
    KeptRecordsLength(Records(m, rows));
  }

  /** Selection keeps row order: two blocks of rows give the records of each, in turn. */
  lemma SelectedAppend(m: map<Field, nat>, a: seq<seq<Cell>>, b: seq<seq<Cell>>)
    ensures Selected(m, a + b) == Selected(m, a) + Selected(m, b)
  {
    MapEachAppend(Builder(m), a, b);
    KeptRecordsAppend(Records(m, a), Records(m, b));
  }

  /** A record is produced exactly when some row builds it and it has a name or an id. */
  lemma SelectedMembers(m: map<Field, nat>, rows: seq<seq<Cell>>, w: Wine)
    ensures w in Selected(m, rows) <==> Keep(w) && exists k :: 0 <= k < |rows| && BuildWine(m, rows[k]) == w
  {
    var ws := Records(m, rows);
    KeptRecordsMembers(ws, w);
    if w in ws {
      var k :| 0 <= k < |ws| && ws[k] == w;
      assert BuildWine(m, rows[k]) == w;
    }
    if exists k :: 0 <= k < |rows| && BuildWine(m, rows[k]) == w {
      var k :| 0 <= k < |rows| && BuildWine(m, rows[k]) == w;
      assert ws[k] == w;
    }
  }

  /** Every record has a name or an id, and has no price and no importer. */
  lemma SelectedRecords(m: map<Field, nat>, rows: seq<seq<Cell>>)
    ensures forall w :: w in Selected(m, rows) ==> Keep(w) && w.price == None && w.importedBy == None
  {
    forall w | w in Selected(m, rows)
      ensures Keep(w) && w.price == None && w.importedBy == None
    {
      SelectedMembers(m, rows, w);
      var k :| 0 <= k < |rows| && BuildWine(m, rows[k]) == w;
    }
  }

  /** One more row: its record is appended when it has a name or an id. */
  lemma SelectedSnoc(m: map<Field, nat>, rows: seq<seq<Cell>>, k: nat)
    requires k < |rows|
    ensures var w := BuildWine(m, rows[k]);
      Selected(m, rows[..k + 1]) == Selected(m, rows[..k]) + (if Keep(w) then [w] else [])
  {
    MapEachPrefix(Builder(m), rows, k);
    KeptRecordsSnoc(Records(m, rows[..k]), BuildWine(m, rows[k]));
  }

  lemma KeptRecordsSnoc(ws: seq<Wine>, w: Wine)
    ensures KeptRecords(ws + [w]) == KeptRecords(ws) + (if Keep(w) then [w] else [])
  {
    assert (ws + [w])[..|ws|] == ws;
  }

  /** A row with a blank name and an id of 0 (or none) is dropped. */
  lemma DropsNamelessRow(m: map<Field, nat>, row: seq<Cell>)
    requires CleanText(Read(m, row, Name), false) == []
    requires ParseInt(Read(m, row, Id)) == None || ParseInt(Read(m, row, Id)) == Some(0)
    ensures Selected(m, [row]) == []
  {
    RecordsOne(m, row);
    BuildWineNameId(m, row);
    KeptRecordsSingle(BuildWine(m, row));
  }

  lemma RecordsOne(m: map<Field, nat>, row: seq<Cell>)
    ensures Records(m, [row]) == [BuildWine(m, row)]
  {
  }

  lemma BuildWineNameId(m: map<Field, nat>, row: seq<Cell>)
    ensures BuildWine(m, row).name == CleanText(Read(m, row, Name), false)
    ensures BuildWine(m, row).id == ParseInt(Read(m, row, Id))
  {
  }

  lemma KeptRecordsSingle(w: Wine)
    ensures KeptRecords([w]) == (if Keep(w) then [w] else [])
  {
    assert [w][..0] == [];
  }

  /**
   * A field whose column, from its header or its fixed position, is past
   * the end of the row reads as "": None for a number, "" for a text.
   */
  lemma MissingColumnReadsEmpty(m: map<Field, nat>, row: seq<Cell>, f: Field)
    requires ColumnOf(m, f) >= |row|
    ensures ParseInt(Read(m, row, f)) == None && ParsePercent(Read(m, row, f)) == None
    ensures CleanText(Read(m, row, f), false) == [] && CleanText(Read(m, row, f), true) == []
  {
    assert Read(m, row, f) == Text([]);
  }

  /**
   * `convert_csv_to_json`: a loop over the header names fills the mapping,
   * then a loop over the rows appends every record with a name or an id.
   */
  method ConvertCsvToJson(columns: seq<string>, rows: seq<seq<Cell>>) returns (wines: seq<Wine>)
    ensures wines == Selected(HeaderMapping(columns), rows)
    ensures |wines| <= |rows|
    ensures forall w :: w in wines ==> Keep(w) && w.price == None && w.importedBy == None
  {
    var mapping: map<Field, nat> := map[];
    for i := 0 to |columns|
      invariant mapping == HeaderMapping(columns[..i])
    {
      HeaderMappingSnoc(columns, i);
      var colClean := Lower(CleanText(Text(columns[i]), false));
      var field := FieldOfHeader(colClean);
      if field.Some? {
        mapping := mapping[field.value := i];
      }
    }
    assert columns[..|columns|] == columns;
    wines := [];
    for k := 0 to |rows|
      invariant wines == Selected(mapping, rows[..k])
    {
      SelectedSnoc(mapping, rows, k);
      var wine := BuildWine(mapping, rows[k]);
      if wine.name != [] || (wine.id.Some? && wine.id.value != 0) {
        wines := wines + [wine];
      }
    }
    assert rows[..|rows|] == rows;
    SelectedLength(mapping, rows);
    SelectedRecords(mapping, rows);
  }

  // ---------------------------------------------------------------------
  // The full document
  // ---------------------------------------------------------------------

  datatype Steak = Steak(
    id: int,
    name: string,
    producer: string,
    cutType: string,
    originCountry: string,
    breed: string,
    tasteDescription: string,
    price: int,
    referralId: int)

  datatype Suggestion = Suggestion(name: string, wineId: int, steakId: int, id: string)

  /** The document written out: the wines with the fixed steaks and suggestions. */
  datatype AppData = AppData(wine: seq<Wine>, steak: seq<Steak>, sommelierSuggestions: seq<Suggestion>)

  function AngusSteak(id: int, name: string, cutType: string): Steak {
    Steak(id, name, "Puro Taglio", cutType, "Brasil", "Angus", "", 0, id)
  }

  const Steaks: seq<Steak> := [
    AngusSteak(2009, "Short Rib Angus", "Short Rib"),
    AngusSteak(2026, "Prime Rib Angus", "Prime Rib"),
    AngusSteak(2013, "T-Bone Steak Angus", "T-Bone Steak"),
    AngusSteak(2004, "Flat Iron Angus", "Flat Iron")
  ]

  const Suggestions: seq<Suggestion> := [
    Suggestion("Kit Executivo - 10% OFF", 3760245210066, 2009, "executivo"),
    Suggestion("Kit Elegante - 15% OFF", 7798145140141, 2026, "elegante"),
    Suggestion("Kit Premium - 15% OFF", 8052080990001, 2013, "premium")
  ]

  /**
   * `create_full_json_structure`: the wines unchanged, four steaks with
   * distinct ids, each its own referral id and priced 0, and three
   * suggestions whose steak ids are all among the steaks' ids.
   */
  function CreateFullJsonStructure(wines: seq<Wine>): (r: AppData)
    ensures r.wine == wines
    ensures |r.steak| == 4 && |r.sommelierSuggestions| == 3
    ensures forall i, j :: 0 <= i < j < |r.steak| ==> r.steak[i].id != r.steak[j].id
    ensures forall i :: 0 <= i < |r.steak| ==> r.steak[i].referralId == r.steak[i].id && r.steak[i].price == 0
    ensures forall s :: s in r.sommelierSuggestions ==> exists t :: t in r.steak && t.id == s.steakId
  {
    var r := AppData(wines, Steaks, Suggestions);
    assert Steaks[0] in r.steak && Steaks[1] in r.steak && Steaks[2] in r.steak;
    r
  }
}
