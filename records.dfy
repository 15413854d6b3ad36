/**
 * The course record both stages store, the `" - "` convention inside its description, and the
 * JSON files (`data/termine.json`, `data/last_sent.json`) that hold lists of records.
 */
module Records {
  import opened Wrappers
  import opened Text

  /** One course date: the JSON object `{termin, beschreibung, ort, kursname, status}`. */
  datatype Record = Record(termin: string, beschreibung: string, ort: string, kursname: string, status: string)

  /** The separator between course name and status inside a description. */
  const Sep: string := " - "

  /** `beschreibung.split(" - ")[0]` when the separator occurs, otherwise the whole description. */
  function CoursePart(beschreibung: string): string {
    if Contains(beschreibung, Sep) then SplitOn(beschreibung, Sep)[0] else beschreibung
  }

  /** `beschreibung.split(" - ")[1]`, which exists once the separator occurs. */
  function StatusPart(beschreibung: string): string
    requires Contains(beschreibung, Sep)
  {
    SplitOn(beschreibung, Sep)[1]
  }

  /** The course part never contains the separator, so taking it twice changes nothing. */
  lemma CoursePartIdempotent(beschreibung: string)
    ensures !Contains(CoursePart(beschreibung), Sep)
    ensures CoursePart(CoursePart(beschreibung)) == CoursePart(beschreibung)
  {
    SplitPiecesFree(beschreibung, Sep);
  }

  /**
   * A description built as `kurs + " - " + status` splits back into `kurs` whatever the status,
   * provided no separator starts inside `kurs`; when the status holds no separator either, it is the
   * status part.
   */
  lemma SplitDescription(kurs: string, status: string)
    requires !Contains(kurs + " -", Sep)
    ensures Contains(kurs + Sep + status, Sep)
    ensures CoursePart(kurs + Sep + status) == kurs
    ensures !Contains(status, Sep) ==> StatusPart(kurs + Sep + status) == status
  {
    assert Sep[..|Sep| - 1] == " -";
    SplitAfterPrefix(kurs, Sep, status);
  }

  /**
   * The course part is the text before the first separator, or the whole description when there is
   * none; it never contains the separator.
   */
  lemma CoursePartPrefix(beschreibung: string)
    ensures var kurs := CoursePart(beschreibung);
      && |kurs| <= |beschreibung| && beschreibung[..|kurs|] == kurs && !Contains(kurs, Sep)
      && (Contains(beschreibung, Sep) <==> Find(beschreibung, Sep) == Some(|kurs|))
      && (!Contains(beschreibung, Sep) ==> kurs == beschreibung)
  {
    SplitPiecesFree(beschreibung, Sep);
  }

  /**
   * The course part of `kurs + " - " + status` does not depend on the status, whatever `kurs` holds:
   * the first separator starts at the latest where the status begins.
   */
  lemma CoursePartIgnoresStatus(kurs: string, status1: string, status2: string)
    ensures CoursePart(kurs + Sep + status1) == CoursePart(kurs + Sep + status2)
  {
    var a := kurs + Sep;
    assert a[|kurs|..|kurs| + |Sep|] == Sep;
    ContainsWhenOccurs(a, Sep, |kurs|);
    SplitHeadStable(a, Sep, status1);
    SplitHeadStable(a, Sep, status2);
  }

  /**
   * The status part is the text between the first separator and the next one (or the end): the
   * course part of what follows the first separator.
   */
  lemma StatusPartNext(beschreibung: string)
    requires Contains(beschreibung, Sep)
    ensures |CoursePart(beschreibung)| + |Sep| <= |beschreibung|
    ensures StatusPart(beschreibung) == CoursePart(beschreibung[|CoursePart(beschreibung)| + |Sep|..])
  {
    SplitSecond(beschreibung, Sep);
    var rest := beschreibung[|CoursePart(beschreibung)| + |Sep|..];
    if !Contains(rest, Sep) {
      assert Find(rest, Sep).None?;
    }
  }

  /**
   * A title that holds a separator itself, such as `"Atemschutz - Teil 1"` before `" - geplant"`:
   * the status part is the second piece, not the text after the last separator.
   */
  lemma StatusOfThreePieces(kurs: string, mitte: string, rest: string)
    requires !Contains(kurs + " -", Sep) && !Contains(mitte + " -", Sep)
    ensures CoursePart(kurs + Sep + mitte + Sep + rest) == kurs
    ensures StatusPart(kurs + Sep + mitte + Sep + rest) == mitte
  {
    var b := kurs + Sep + mitte + Sep + rest;
    assert b == kurs + Sep + (mitte + Sep + rest);
    SplitDescription(kurs, mitte + Sep + rest);
    StatusPartNext(b);
    assert b[|kurs| + |Sep|..] == mitte + Sep + rest;
    SplitDescription(mitte, rest);
  }

  /** The status stored beside a description: its second piece, or empty without a separator. */
  function StatusOf(beschreibung: string): string {
    if Contains(beschreibung, Sep) then StatusPart(beschreibung) else ""
  }

  /** The stored course name and status are the first two pieces of the description. */
  predicate SplitFields(r: Record) {
    r.kursname == CoursePart(r.beschreibung) && r.status == StatusOf(r.beschreibung)
  }

  /**
   * For a record whose fields were split from its description: without a separator the course name
   * is the description; with one, the description starts with `kursname + " - " + status`, is
   * exactly that when it holds a single separator, and the status runs up to the next separator.
   */
  lemma SplitFieldsReassemble(r: Record)
    requires SplitFields(r)
    ensures !Contains(r.beschreibung, Sep) ==> r.kursname == r.beschreibung && r.status == ""
    ensures Contains(r.beschreibung, Sep) ==>
      var head := r.kursname + Sep + r.status;
      |head| <= |r.beschreibung| && r.beschreibung[..|head|] == head
      && (|SplitOn(r.beschreibung, Sep)| == 2 ==> r.beschreibung == head)
    ensures Contains(r.beschreibung, Sep) ==>
      |r.kursname| + |Sep| <= |r.beschreibung| && r.status == CoursePart(r.beschreibung[|r.kursname| + |Sep|..])
  {
    if Contains(r.beschreibung, Sep) {
      JoinSplit(r.beschreibung, Sep);
      JoinHead(SplitOn(r.beschreibung, Sep), Sep);
      StatusPartNext(r.beschreibung);
    }
  }

  /** `xs` is `ys` with some elements left out, the rest kept in order. */
  predicate Subsequence(xs: seq<Record>, ys: seq<Record>)
    decreases |ys|
  {
    if xs == [] then true
    else if ys == [] then false
    else (xs[0] == ys[0] && Subsequence(xs[1..], ys[1..])) || Subsequence(xs, ys[1..])
  }

  /** What `lade_json` finds on disk: no file, UTF-8 text that is not valid JSON, a value that is not a list, or a list of records. */
  datatype StoredFile = Missing | InvalidJson | NotAList | RecordList(entries: seq<Record>)

  /** `lade_json`: anything but a list of records reads as the empty list. */
  function LadeJson(file: StoredFile): seq<Record> {
    if file.RecordList? then file.entries else []
  }

  /** A JSON record file together with the list a stage has loaded from it. */
  class RecordStore {
    var records: seq<Record>

    /** `daten = lade_json(datei)`. */
    constructor Load(file: StoredFile)
      ensures records == LadeJson(file)
    {
      records := LadeJson(file);
    }

    /** `daten.extend(neue)` followed by `speichere_json(datei, daten)`. */
    method Extend(more: seq<Record>)
      modifies this
      ensures records == old(records) + more
    {
      records := records + more;
    }

    /** `speichere_json(datei, eintraege)`: the file is replaced by the given list. */
    method Overwrite(all: seq<Record>)
      modifies this
      ensures records == all
    {
      records := all;
    }
  }
}
