/**
 * The scrape stage (`bin/monitor.py`): the whitespace normaliser, the identity key, the search
 * terms, the extraction of course records from the dates table, and the merge of the extracted
 * records into `data/termine.json`.
 */
module Monitor {
  import opened Wrappers
  import opened Text
  import opened Records

  // ------------------------------------------------------------------ normalisation and key

  /** `bereinige_text`: every run of whitespace becomes one space, then the ends are stripped. */
  function BereinigeText(text: string): (r: string)
    ensures Canonical(r)
    ensures NonSpace(r) == NonSpace(text)
  {
    var q := Squeeze(text);
    var k := SpaceRunEnd(q, 0);
    NonSpaceSqueeze(text);
    NonSpaceStrip(q);
    SqueezedSlice(q, k, k + |Strip(q)|);
    Strip(q)
  }

  /** Text that is already normalised is returned unchanged; hence the normaliser is idempotent. */
  lemma BereinigeTextFixed(text: string)
    ensures Canonical(text) ==> BereinigeText(text) == text
    ensures BereinigeText(BereinigeText(text)) == BereinigeText(text)
  {
    forall s: string | Canonical(s)
      ensures BereinigeText(s) == s
    {
      SqueezeFixed(s);
      StripFixed(s);
    }
  }

  /** `bereinige_text` separates the words of the text by single spaces and keeps nothing else. */
  lemma BereinigeTextWords(text: string)
    ensures BereinigeText(text) == Unwords(Words(text))
  {
    var q := Squeeze(text);
    SqueezeWords(text);
    StripWords(q);
    UnwordsWords(BereinigeText(text));
  }

  /** Lower-casing before or after normalising gives the same text. */
  lemma BereinigeTextLower(text: string)
    ensures BereinigeText(Lower(text)) == Lower(BereinigeText(text))
  {
    SqueezeLower(text);
    StripLower(Squeeze(text));
  }

  /** One half of a key: the normalised, lower-cased text. */
  function KeyPart(x: string): string {
    Lower(BereinigeText(x))
  }

  /** A key half is normalised and lower case, and normalising it again changes nothing. */
  lemma KeyPartNormalised(x: string)
    ensures Canonical(KeyPart(x)) && IsLowerCase(KeyPart(x))
    ensures KeyPart(KeyPart(x)) == KeyPart(x)
  {
    var b := BereinigeText(x);
    LowerProperties(b);
    BereinigeTextFixed(Lower(b));
  }

  /** `erstelle_key`: normalised date, `|`, normalised course part of the description. */
  function ErstelleKey(termin: string, beschreibung: string): string {
    KeyPart(termin) + "|" + KeyPart(CoursePart(beschreibung))
  }

  /**
   * The key consists of two halves around a `|`, each lower case and whitespace-normalised: the
   * first is derived from the date alone, the second from the course part of the description alone.
   */
  lemma KeyHalves(termin: string, beschreibung: string)
    ensures var key := ErstelleKey(termin, beschreibung);
      exists i :: 0 <= i < |key| && key[i] == '|'
        && key[..i] == KeyPart(termin) && key[i + 1..] == KeyPart(CoursePart(beschreibung))
        && Canonical(key[..i]) && IsLowerCase(key[..i])
        && Canonical(key[i + 1..]) && IsLowerCase(key[i + 1..])
  {
    var key := ErstelleKey(termin, beschreibung);
    var i := |KeyPart(termin)|;
    KeyPartNormalised(termin);
    KeyPartNormalised(CoursePart(beschreibung));
    assert key[i] == '|';
    assert key[..i] == KeyPart(termin) && key[i + 1..] == KeyPart(CoursePart(beschreibung));
  }

  /** Only the status changes between two descriptions: the key stays the same. */
  lemma KeyIgnoresStatus(termin: string, kurs: string, status1: string, status2: string)
    ensures ErstelleKey(termin, kurs + Sep + status1) == ErstelleKey(termin, kurs + Sep + status2)
  {
    CoursePartIgnoresStatus(kurs, status1, status2);
  }

  /**
   * Extra whitespace and upper case in the date do not change the key. (The course name is
   * different: it is cut at the first `" - "` before it is normalised, so a tab inside `" - "`
   * changes where it is cut.)
   */
  lemma KeyIgnoresSpacingAndCase(termin: string, beschreibung: string)
    ensures ErstelleKey(KeyPart(termin), beschreibung) == ErstelleKey(termin, beschreibung)
    ensures ErstelleKey(BereinigeText(termin), beschreibung) == ErstelleKey(termin, beschreibung)
    ensures ErstelleKey(Lower(termin), beschreibung) == ErstelleKey(termin, beschreibung)
  {
    KeyPartNormalised(termin);
    BereinigeTextFixed(termin);
    BereinigeTextLower(termin);
    LowerProperties(BereinigeText(termin));
  }

  // ------------------------------------------------------------------ search terms

  const DefaultSuchbegriffe: seq<string> := ["TM2", "Atemschutz", "Truppmann"]

  /**
   * `hole_suchbegriffe`, given the value of `SEARCH_TEXT` (empty when unset): the defaults for an
   * empty value, otherwise the trimmed non-blank comma-separated items, which may be none at all.
   */
  function HoleSuchbegriffe(searchText: string): (terms: seq<string>)
    ensures searchText == "" ==> terms == DefaultSuchbegriffe
    ensures searchText != "" ==> terms == NonBlankStripped(SplitOn(searchText, ","))
    ensures searchText != "" ==> forall t :: t in terms ==> t != "" && Trimmed(t) && ',' !in t
    ensures terms == [] <==> searchText != "" && forall p :: p in SplitOn(searchText, ",") ==> AllSpace(p)
  {
    if searchText == "" then DefaultSuchbegriffe else CommaList(searchText)
  }

  /** Configured terms written as a comma-separated list are read back exactly, in order. */
  lemma HoleSuchbegriffeRoundTrip(terms: seq<string>)
    requires |terms| >= 1
    requires forall t :: t in terms ==> t != "" && Trimmed(t) && ',' !in t
    ensures HoleSuchbegriffe(Join(terms, ",")) == terms
  {
    var s := Join(terms, ",");
    assert terms[0] in terms;
    JoinLength(terms, ",");
    assert s != "" && HoleSuchbegriffe(s) == CommaList(s);
    CommaListJoin(terms);
  }

  // ------------------------------------------------------------------ the dates table

  /**
   * A `td` cell: the text `get_text(separator="\n")` returns, and the stripped text of its `h3`
   * element when it has one.
   */
  datatype Cell = Cell(text: string, heading: Option<string>)

  /** A `tr` row, as the sequence of its `td` cells. */
  type Row = seq<Cell>

  /** The stripped non-blank lines of a cell. */
  function Lines(cell: Cell): seq<string> {
    NonBlankStripped(SplitOn(cell.text, "\n"))
  }

  /** The title: the heading text, or empty without an `h3`. */
  function Titel(cell: Cell): string {
    match cell.heading
    case None => ""
    case Some(h) => h
  }

  /** The status: the last non-blank line of the cell, or empty. */
  function Status(cell: Cell): string {
    var lines := Lines(cell);
    if lines == [] then "" else lines[|lines| - 1]
  }

  /** The description: `titel + " - " + status` under a non-empty title, otherwise the status. */
  function Beschreibung(cell: Cell): string {
    if Titel(cell) != "" then Titel(cell) + Sep + Status(cell) else Status(cell)
  }

  /** Some search term, lower-cased, occurs in the lower-cased description. */
  predicate MatchesSearch(beschreibung: string, suchbegriffe: seq<string>) {
    exists t :: t in suchbegriffe && Contains(Lower(beschreibung), Lower(t))
  }

  /** The date of a record: `min + " - " + max` of two or more dates in string order, else the one date. */
  function TerminText(termine: seq<string>): string
    requires |termine| >= 1
  {
    if |termine| >= 2 then MinStr(termine) + Sep + MaxStr(termine) else termine[0]
  }

  /** The record a row yields, if it has three cells, a date line and a description that matches. */
  function RowRecords(row: Row, suchbegriffe: seq<string>): seq<Record> {
    if |row| != 3 || Lines(row[0]) == [] then []
    else
      var beschreibung := Beschreibung(row[1]);
      if !MatchesSearch(beschreibung, suchbegriffe) then []
      else
        [Record(TerminText(Lines(row[0])), beschreibung, BereinigeText(row[2].text),
                CoursePart(beschreibung), StatusOf(beschreibung))]
  }

  /** The records of all rows, in row order. */
  function Collect(rows: seq<Row>, suchbegriffe: seq<string>): seq<Record>
    decreases |rows|
  {
    if rows == [] then []
    else Collect(rows[..|rows| - 1], suchbegriffe) + RowRecords(rows[|rows| - 1], suchbegriffe)
  }

  /** What `extrahiere_termine_aus_tabelle` returns for the page's first table, if there is one. */
  function Extracted(table: Option<seq<Row>>, suchbegriffe: seq<string>): seq<Record> {
    match table
    case None => []
    case Some(rows) => if |rows| <= 1 then [] else Collect(rows, suchbegriffe)
  }

  /** `extrahiere_termine_aus_tabelle`: one pass over every row, appending the records it keeps. */
  method ExtrahiereTermine(table: Option<seq<Row>>, suchbegriffe: seq<string>) returns (gefundene: seq<Record>)
    ensures gefundene == Extracted(table, suchbegriffe)
  {
    gefundene := [];
    if table.None? {
      return;
    }
    var rows := table.value;
    if |rows| <= 1 {
      return;
    }
    for i := 0 to |rows|
      invariant gefundene == Collect(rows[..i], suchbegriffe)
    {
      ghost var upto := rows[..i + 1];
      assert upto[..|upto| - 1] == rows[..i] && upto[|upto| - 1] == rows[i];
      assert Collect(upto, suchbegriffe) == gefundene + RowRecords(rows[i], suchbegriffe);
      var cols := rows[i];
      if |cols| != 3 {
        continue;
      }
      var termine := Lines(cols[0]);
      if termine == [] {
        continue;
      }
      var beschreibung := Beschreibung(cols[1]);
      var ort := BereinigeText(cols[2].text);
      if !MatchesSearch(beschreibung, suchbegriffe) {
        continue;
      }
      var kursname := beschreibung;
      var status := "";
      if Contains(beschreibung, Sep) {
        var teile := SplitOn(beschreibung, Sep);
        kursname := teile[0];
        status := teile[1];
      }
      var zeitraum := termine[0];
      if |termine| >= 2 {
        zeitraum := MinStr(termine) + Sep + MaxStr(termine);
      }
      assert zeitraum == TerminText(termine);
      assert kursname == CoursePart(beschreibung) && status == StatusOf(beschreibung);
      assert RowRecords(cols, suchbegriffe) == [Record(zeitraum, beschreibung, ort, kursname, status)];
      gefundene := gefundene + [Record(zeitraum, beschreibung, ort, kursname, status)];
    }
    assert rows[..|rows|] == rows;
  }

  /** A row yields at most one record, and one exactly when it is kept. */
  lemma RowOutcome(row: Row, suchbegriffe: seq<string>)
    ensures |RowRecords(row, suchbegriffe)| <= 1
    ensures RowRecords(row, suchbegriffe) != [] <==>
      |row| == 3 && Lines(row[0]) != [] && MatchesSearch(Beschreibung(row[1]), suchbegriffe)
    ensures forall r :: r in RowRecords(row, suchbegriffe) ==>
      r.termin == TerminText(Lines(row[0])) && r.beschreibung == Beschreibung(row[1])
      && r.ort == BereinigeText(row[2].text) && SplitFields(r)
  {
  }

  /** Two or more dates become `lo - hi` with `lo` and `hi` among them, below and above all of them. */
  lemma TerminTextRange(termine: seq<string>)
    requires |termine| >= 2
    ensures exists lo, hi ::
      && lo in termine && hi in termine && TerminText(termine) == lo + Sep + hi
      && (forall t :: t in termine ==> StrLe(lo, t) && StrLe(t, hi))
  {
    var lo, hi := MinStr(termine), MaxStr(termine);
    assert TerminText(termine) == lo + Sep + hi;
  }

  /** The range does not depend on the order the dates are listed in. */
  lemma TerminTextOrderFree(a: seq<string>, b: seq<string>)
    requires |a| >= 2 && |b| >= 2
    requires forall t :: t in a <==> t in b
    ensures TerminText(a) == TerminText(b)
  {
    StrLeAntisym(MinStr(a), MinStr(b));
    StrLeAntisym(MaxStr(a), MaxStr(b));
  }

  /** Two dates give the earlier, the separator and the later, whichever order they come in. */
  lemma TerminTextOfTwo(a: string, b: string)
    ensures StrLe(a, b) ==> TerminText([a, b]) == a + Sep + b
    ensures !StrLe(a, b) ==> TerminText([a, b]) == b + Sep + a
  {
    var ts := [a, b];
    var lo, hi := MinStr(ts), MaxStr(ts);
    assert lo in ts && hi in ts;
    StrLeTotal(a, b);
    if StrLe(a, b) {
      if lo == b { StrLeAntisym(a, b); }
      if hi == a { StrLeAntisym(a, b); }
      assert lo == a && hi == b;
    } else {
      assert lo == b && hi == a;
    }
  }

  /** The documented example: `["25.10.2025", "10.10.2025"]` gives `"10.10.2025 - 25.10.2025"`. */
  lemma TerminTextExample()
    ensures TerminText(["25.10.2025", "10.10.2025"]) == "10.10.2025" + " - " + "25.10.2025"
  {
    var a, b := "25.10.2025", "10.10.2025";
    assert a[0] == '2' && b[0] == '1';
    assert !StrLe(a, b);
    TerminTextOfTwo(a, b);
  }

  /** The records follow the row order: extracting from two blocks of rows concatenates their records. */
  lemma {:induction false} CollectAppend(a: seq<Row>, b: seq<Row>, suchbegriffe: seq<string>)
    ensures Collect(a + b, suchbegriffe) == Collect(a, suchbegriffe) + Collect(b, suchbegriffe)
    decreases |b|
  {
    if b != [] {
      var b' := b[..|b| - 1];
      assert (a + b)[..|a + b| - 1] == a + b';
      assert (a + b)[|a + b| - 1] == b[|b| - 1];
      CollectAppend(a, b', suchbegriffe);
    } else {
      assert a + b == a;
    }
  }

  /** Every extracted record matches a search term, splits its description into its fields, has a
   *  normalised place and a non-empty date. */
  predicate WellFormed(r: Record, suchbegriffe: seq<string>) {
    && SplitFields(r)
    && MatchesSearch(r.beschreibung, suchbegriffe)
    && Canonical(r.ort)
    && r.termin != ""
  }

  lemma RowWellFormed(row: Row, suchbegriffe: seq<string>)
    ensures forall r :: r in RowRecords(row, suchbegriffe) ==> WellFormed(r, suchbegriffe)
  {
    RowOutcome(row, suchbegriffe);
    forall r | r in RowRecords(row, suchbegriffe)
      ensures WellFormed(r, suchbegriffe)
    {
      var termine := Lines(row[0]);
      assert termine[0] in termine;
      assert r.termin != "" by {
        if |termine| >= 2 {
          assert |TerminText(termine)| >= |Sep|;
        }
      }
    }
  }

  lemma {:induction false} CollectWellFormed(rows: seq<Row>, suchbegriffe: seq<string>)
    ensures forall r :: r in Collect(rows, suchbegriffe) ==> WellFormed(r, suchbegriffe)
    decreases |rows|
  {
    if rows != [] {
      CollectWellFormed(rows[..|rows| - 1], suchbegriffe);
      RowWellFormed(rows[|rows| - 1], suchbegriffe);
    }
  }

  lemma ExtractedWellFormed(table: Option<seq<Row>>, suchbegriffe: seq<string>)
    ensures forall r :: r in Extracted(table, suchbegriffe) ==> WellFormed(r, suchbegriffe)
  {
    if table.Some? {
      CollectWellFormed(table.value, suchbegriffe);
    }
  }

  lemma {:induction false} CollectNoTerms(rows: seq<Row>)
    ensures Collect(rows, []) == []
    decreases |rows|
  {
    if rows != [] {
      CollectNoTerms(rows[..|rows| - 1]);
    }
  }

  /**
   * No record without a table, with at most one row, or with no search term at all (a
   * `SEARCH_TEXT` made only of commas and blanks).
   */
  lemma ExtractedEmpty(table: Option<seq<Row>>, suchbegriffe: seq<string>)
    ensures table.None? ==> Extracted(table, suchbegriffe) == []
    ensures table.Some? && |table.value| <= 1 ==> Extracted(table, suchbegriffe) == []
    ensures suchbegriffe == [] ==> Extracted(table, suchbegriffe) == []
  {
    if table.Some? {
      CollectNoTerms(table.value);
    }
  }

  // ------------------------------------------------------------------ merge

  /** The key the merge uses for a stored or extracted record. */
  function KeyOf(r: Record): string {
    ErstelleKey(r.termin, r.beschreibung)
  }

  function KeySet(rs: seq<Record>): set<string> {
    set r | r in rs :: KeyOf(r)
  }

  predicate KeysDistinct(rs: seq<Record>) {
    forall i, j :: 0 <= i < j < |rs| ==> KeyOf(rs[i]) != KeyOf(rs[j])
  }

  /** The candidates whose key is neither in `seen` nor taken by an earlier candidate. */
  function FreshEntries(seen: set<string>, kandidaten: seq<Record>): seq<Record>
    decreases |kandidaten|
  {
    if kandidaten == [] then []
    else if KeyOf(kandidaten[0]) in seen then FreshEntries(seen, kandidaten[1..])
    else [kandidaten[0]] + FreshEntries(seen + {KeyOf(kandidaten[0])}, kandidaten[1..])
  }

  /** One step of the merge loop: the next candidate is kept exactly when its key is unseen. */
  lemma FreshEntriesStep(neue: seq<Record>, seen: set<string>, rest: seq<Record>)
    requires rest != []
    ensures KeyOf(rest[0]) !in seen ==>
      (neue + [rest[0]]) + FreshEntries(seen + {KeyOf(rest[0])}, rest[1..]) == neue + FreshEntries(seen, rest)
    ensures KeyOf(rest[0]) in seen ==> FreshEntries(seen, rest) == FreshEntries(seen, rest[1..])
  {
    if KeyOf(rest[0]) !in seen {
      var tail := FreshEntries(seen + {KeyOf(rest[0])}, rest[1..]);
      assert FreshEntries(seen, rest) == [rest[0]] + tail;
      assert (neue + [rest[0]]) + tail == neue + ([rest[0]] + tail);
    }
  }

  /** The merge loop of `main`: keeps the key set up to date while collecting the new entries. */
  method NewEntries(daten: seq<Record>, gefundene: seq<Record>) returns (neue: seq<Record>)
    ensures neue == FreshEntries(KeySet(daten), gefundene)
  {
    var vorhandeneKeys := KeySet(daten);
    neue := [];
    assert gefundene[0..] == gefundene;
    for i := 0 to |gefundene|
      invariant neue + FreshEntries(vorhandeneKeys, gefundene[i..]) == FreshEntries(KeySet(daten), gefundene)
    {
      var termin := gefundene[i];
      var key := KeyOf(termin);
      FreshEntriesStep(neue, vorhandeneKeys, gefundene[i..]);
      assert gefundene[i..][0] == termin && gefundene[i..][1..] == gefundene[i + 1..];
      if key !in vorhandeneKeys {
        neue := neue + [termin];
        vorhandeneKeys := vorhandeneKeys + {key};
      }
    }
  }

  lemma KeySetAppend(a: seq<Record>, b: seq<Record>)
    ensures KeySet(a + b) == KeySet(a) + KeySet(b)
  {
    forall k | k in KeySet(a + b)
      ensures k in KeySet(a) + KeySet(b)
    {
      var r :| r in a + b && KeyOf(r) == k;
    }
  }

  /** The new entries are candidates, none with a key in `seen`. */
  lemma {:induction false} FreshEntriesMembers(seen: set<string>, kandidaten: seq<Record>)
    ensures forall r :: r in FreshEntries(seen, kandidaten) ==> r in kandidaten && KeyOf(r) !in seen
    decreases |kandidaten|
  {
    if kandidaten != [] {
      var k := kandidaten[0];
      if KeyOf(k) in seen {
        FreshEntriesMembers(seen, kandidaten[1..]);
      } else {
        FreshEntriesMembers(seen + {KeyOf(k)}, kandidaten[1..]);
      }
    }
  }

  /** The new entries keep the candidates' order. */
  lemma {:induction false} FreshEntriesOrder(seen: set<string>, kandidaten: seq<Record>)
    ensures Subsequence(FreshEntries(seen, kandidaten), kandidaten)
    decreases |kandidaten|
  {
    if kandidaten != [] {
      var k := kandidaten[0];
      if KeyOf(k) in seen {
        FreshEntriesOrder(seen, kandidaten[1..]);
        SubsequenceSkip(FreshEntries(seen, kandidaten[1..]), k, kandidaten[1..]);
      } else {
        var rest := FreshEntries(seen + {KeyOf(k)}, kandidaten[1..]);
        FreshEntriesOrder(seen + {KeyOf(k)}, kandidaten[1..]);
        assert ([k] + rest)[0] == kandidaten[0] && ([k] + rest)[1..] == rest;
      }
    }
  }

  /** Dropping a leading element of the longer sequence keeps a subsequence one. */
  lemma SubsequenceSkip(xs: seq<Record>, y: Record, ys: seq<Record>)
    requires Subsequence(xs, ys)
    ensures Subsequence(xs, [y] + ys)
  {
    assert ([y] + ys)[1..] == ys;
  }

  /** No two new entries share a key. */
  lemma {:induction false} FreshEntriesDistinct(seen: set<string>, kandidaten: seq<Record>)
    ensures KeysDistinct(FreshEntries(seen, kandidaten))
    decreases |kandidaten|
  {
    if kandidaten != [] {
      var k := kandidaten[0];
      if KeyOf(k) in seen {
        FreshEntriesDistinct(seen, kandidaten[1..]);
      } else {
        var rest := FreshEntries(seen + {KeyOf(k)}, kandidaten[1..]);
        FreshEntriesDistinct(seen + {KeyOf(k)}, kandidaten[1..]);
        FreshEntriesMembers(seen + {KeyOf(k)}, kandidaten[1..]);
        forall j | 0 <= j < |rest|
          ensures KeyOf(rest[j]) != KeyOf(k)
        {
          assert rest[j] in rest;
        }
        KeysDistinctCons(k, rest);
      }
    }
  }

  /** A record put in front of key-distinct records whose keys all differ from its own keeps them distinct. */
  lemma KeysDistinctCons(k: Record, rest: seq<Record>)
    requires KeysDistinct(rest)
    requires forall j :: 0 <= j < |rest| ==> KeyOf(rest[j]) != KeyOf(k)
    ensures KeysDistinct([k] + rest)
  {
    DistinctCons(KeyOf, k, rest);
  }

  /** The same for any key function, so that no key's definition enters the argument. */
  lemma DistinctCons<T>(f: T -> string, k: T, rest: seq<T>)
    requires forall i, j :: 0 <= i < j < |rest| ==> f(rest[i]) != f(rest[j])
    requires forall j :: 0 <= j < |rest| ==> f(rest[j]) != f(k)
    ensures forall i, j :: 0 <= i < j < |[k] + rest| ==> f(([k] + rest)[i]) != f(([k] + rest)[j])
  {
    var neue := [k] + rest;
    forall i, j | 0 <= i < j < |neue|
      ensures f(neue[i]) != f(neue[j])
    {
      assert neue[j] == rest[j - 1];
      if i == 0 {
        assert neue[i] == k;
      } else {
        assert neue[i] == rest[i - 1];
      }
    }
  }

  /**
   * The new entries are candidates, in candidate order; none has a key in `seen`, and no two share
   * a key.
   */
  lemma FreshEntriesNew(seen: set<string>, kandidaten: seq<Record>)
    ensures var neue := FreshEntries(seen, kandidaten);
      Subsequence(neue, kandidaten) && KeysDistinct(neue)
      && forall r :: r in neue ==> r in kandidaten && KeyOf(r) !in seen
  {
    FreshEntriesOrder(seen, kandidaten);
    FreshEntriesDistinct(seen, kandidaten);
    FreshEntriesMembers(seen, kandidaten);
  }

  /** Candidate `i` is the first candidate with its key, and that key is not in `seen`. */
  predicate FirstUnseen(seen: set<string>, kandidaten: seq<Record>, i: nat)
    requires i < |kandidaten|
  {
    KeyOf(kandidaten[i]) !in seen && forall j :: 0 <= j < i ==> KeyOf(kandidaten[j]) != KeyOf(kandidaten[i])
  }

  /** The candidates at the positions where `FirstUnseen` holds, in position order. */
  function FirstUnseenEntries(seen: set<string>, kandidaten: seq<Record>): seq<Record>
    decreases |kandidaten|
  {
    if kandidaten == [] then []
    else
      var n := |kandidaten| - 1;
      FirstUnseenEntries(seen, kandidaten[..n]) + (if FirstUnseen(seen, kandidaten, n) then [kandidaten[n]] else [])
  }

  /** `FreshEntries` for any key function, so that no key's definition enters the arguments below. */
  function FreshBy<T>(f: T -> string, seen: set<string>, ks: seq<T>): seq<T>
    decreases |ks|
  {
    if ks == [] then []
    else if f(ks[0]) in seen then FreshBy(f, seen, ks[1..])
    else [ks[0]] + FreshBy(f, seen + {f(ks[0])}, ks[1..])
  }

  lemma {:induction false} FreshEntriesBy(seen: set<string>, kandidaten: seq<Record>)
    ensures FreshEntries(seen, kandidaten) == FreshBy(KeyOf, seen, kandidaten)
    decreases |kandidaten|
  {
    if kandidaten != [] {
      FreshEntriesBy(seen, kandidaten[1..]);
      FreshEntriesBy(seen + {KeyOf(kandidaten[0])}, kandidaten[1..]);
    }
  }

  /** Adding one element at the end: it is kept exactly when its key is neither in `seen` nor an earlier key. */
  lemma {:induction false} FreshBySnoc<T>(f: T -> string, seen: set<string>, a: seq<T>, x: T)
    ensures FreshBy(f, seen, a + [x])
      == FreshBy(f, seen, a) + (if f(x) in seen + set r | r in a :: f(r) then [] else [x])
    decreases |a|
  {
    if a == [] {
      assert a + [x] == [x] && [x][1..] == [];
    } else {
      var h, t := a[0], a[1..];
      assert (a + [x])[0] == h && (a + [x])[1..] == t + [x];
      assert (set r | r in a :: f(r)) == {f(h)} + set r | r in t :: f(r) by {
        assert a == [h] + t;
      }
      if f(h) in seen {
        FreshBySnoc(f, seen, t, x);
      } else {
        FreshBySnoc(f, seen + {f(h)}, t, x);
      }
    }
  }

  lemma FreshEntriesSnoc(seen: set<string>, a: seq<Record>, x: Record)
    ensures FreshEntries(seen, a + [x]) == FreshEntries(seen, a) + (if KeyOf(x) in seen + KeySet(a) then [] else [x])
  {
    FreshEntriesBy(seen, a + [x]);
    FreshEntriesBy(seen, a);
    FreshBySnoc(KeyOf, seen, a, x);
  }

  /** The same for any key function, so that no key's definition enters the argument. */
  lemma FirstByLast<T>(f: T -> string, seen: set<string>, ks: seq<T>)
    requires ks != []
    ensures var n := |ks| - 1;
      (f(ks[n]) !in seen && forall j :: 0 <= j < n ==> f(ks[j]) != f(ks[n]))
      <==> f(ks[n]) !in seen + set r | r in ks[..n] :: f(r)
  {
    var n := |ks| - 1;
    var a := ks[..n];
    if f(ks[n]) in set r | r in a :: f(r) {
      var r :| r in a && f(r) == f(ks[n]);
      var j :| 0 <= j < n && a[j] == r;
      assert ks[j] == r;
    }
    forall j | 0 <= j < n
      ensures f(ks[j]) in set r | r in a :: f(r)
    {
      assert ks[j] == a[j] && a[j] in a;
    }
  }

  lemma FirstUnseenLast(seen: set<string>, kandidaten: seq<Record>)
    requires kandidaten != []
    ensures var n := |kandidaten| - 1;
      FirstUnseen(seen, kandidaten, n) <==> KeyOf(kandidaten[n]) !in seen + KeySet(kandidaten[..n])
  {
    FirstByLast(KeyOf, seen, kandidaten);
  }

  /**
   * The merge keeps candidate `i` exactly when its key is not stored and no earlier candidate has
   * that key: of several candidates with one new key, the first is appended.
   */
  lemma {:induction false} FreshEntriesFirst(seen: set<string>, kandidaten: seq<Record>)
    ensures FreshEntries(seen, kandidaten) == FirstUnseenEntries(seen, kandidaten)
    decreases |kandidaten|
  {
    if kandidaten != [] {
      var n := |kandidaten| - 1;
      var a, x := kandidaten[..n], kandidaten[n];
      assert kandidaten == a + [x];
      FreshEntriesFirst(seen, a);
      FreshEntriesSnoc(seen, a, x);
      FirstUnseenLast(seen, kandidaten);
    }
  }

  /** Every candidate's key ends up either in `seen` or among the keys of the new entries. */
  lemma {:induction false} FreshEntriesCover(seen: set<string>, kandidaten: seq<Record>)
    ensures KeySet(kandidaten) <= seen + KeySet(FreshEntries(seen, kandidaten))
    decreases |kandidaten|
  {
    if kandidaten != [] {
      var k := kandidaten[0];
      assert kandidaten == [k] + kandidaten[1..];
      KeySetAppend([k], kandidaten[1..]);
      if KeyOf(k) in seen {
        FreshEntriesCover(seen, kandidaten[1..]);
      } else {
        FreshEntriesCover(seen + {KeyOf(k)}, kandidaten[1..]);
        KeySetAppend([k], FreshEntries(seen + {KeyOf(k)}, kandidaten[1..]));
      }
    }
  }

  /** Nothing is new when every candidate key is already known. */
  lemma {:induction false} FreshEntriesNone(seen: set<string>, kandidaten: seq<Record>)
    requires KeySet(kandidaten) <= seen
    ensures FreshEntries(seen, kandidaten) == []
    decreases |kandidaten|
  {
    if kandidaten != [] {
      assert kandidaten[0] in kandidaten;
      assert KeySet(kandidaten[1..]) <= KeySet(kandidaten);
      FreshEntriesNone(seen, kandidaten[1..]);
    }
  }

  /** Running the merge a second time with the same candidates appends nothing. */
  lemma MergeIdempotent(daten: seq<Record>, kandidaten: seq<Record>)
    ensures var neue := FreshEntries(KeySet(daten), kandidaten);
      FreshEntries(KeySet(daten + neue), kandidaten) == []
  {
    var neue := FreshEntries(KeySet(daten), kandidaten);
    FreshEntriesCover(KeySet(daten), kandidaten);
    KeySetAppend(daten, neue);
    FreshEntriesNone(KeySet(daten + neue), kandidaten);
  }

  /** A store whose keys are distinct keeps them distinct after the merge. */
  lemma MergeKeepsKeysDistinct(daten: seq<Record>, kandidaten: seq<Record>)
    requires KeysDistinct(daten)
    ensures KeysDistinct(daten + FreshEntries(KeySet(daten), kandidaten))
  {
    var neue := FreshEntries(KeySet(daten), kandidaten);
    FreshEntriesNew(KeySet(daten), kandidaten);
    var all := daten + neue;
    forall i, j | 0 <= i < j < |all|
      ensures KeyOf(all[i]) != KeyOf(all[j])
    {
      if j >= |daten| {
        assert all[j] == neue[j - |daten|] && all[j] in neue;
        if i < |daten| {
          assert all[i] in daten;
        } else {
          assert all[i] == neue[i - |daten|];
        }
      }
    }
  }

  // ------------------------------------------------------------------ one run

  /** The result of `requests.get` and BeautifulSoup: a failure, or a page with or without a table. */
  datatype Page = FetchFailed | Fetched(table: Option<seq<Row>>)

  /**
   * `main`: read the search terms, extract the records of the page, append the new ones to the
   * store. A failed fetch ends the run before the store is touched.
   */
  method RunMonitor(store: RecordStore, searchText: string, page: Page) returns (neue: seq<Record>)
    modifies store
    ensures page.FetchFailed? ==> neue == [] && store.records == old(store.records)
    ensures page.Fetched? ==>
      neue == FreshEntries(KeySet(old(store.records)), Extracted(page.table, HoleSuchbegriffe(searchText)))
    ensures store.records == old(store.records) + neue
  {
    var suchbegriffe := HoleSuchbegriffe(searchText);
    if page.FetchFailed? {
      return [];
    }
    var gefundene := ExtrahiereTermine(page.table, suchbegriffe);
    neue := NewEntries(store.records, gefundene);
    if neue != [] {
      store.Extend(neue);
    }
  }
}
