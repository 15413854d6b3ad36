/**
 * The notify stage (`bin/mail_notifier.py`): its own identity key, the difference between the
 * scraped records and the last-sent snapshot, the mail subject and text, the archive policy, the
 * early exits of `sende_email`, and the rule that advances the snapshot.
 */
module MailNotifier {
  import opened Wrappers
  import opened Text
  import opened Records

  // ------------------------------------------------------------------ key

  /** `erstelle_key`: the raw date, `|`, and the raw course part of the description. */
  function ErstelleKey(eintrag: Record): string {
    eintrag.termin + "|" + CoursePart(eintrag.beschreibung)
  }

  /**
   * The key is the unchanged date, a `|`, and the text of the description before its first
   * `" - "` (all of it when there is none); nothing is lower-cased or normalised.
   */
  lemma KeyShape(eintrag: Record)
    ensures var key, n := ErstelleKey(eintrag), |eintrag.termin|;
      |key| > n && key[..n] == eintrag.termin && key[n] == '|'
    ensures var key, n, d := ErstelleKey(eintrag), |eintrag.termin|, eintrag.beschreibung;
      var kurs := key[n + 1..];
      && |kurs| <= |d| && d[..|kurs|] == kurs && !Contains(kurs, Sep)
      && (Contains(d, Sep) <==> Find(d, Sep) == Some(|kurs|))
      && (!Contains(d, Sep) ==> kurs == d)
  {
    var key, n := ErstelleKey(eintrag), |eintrag.termin|;
    CoursePartPrefix(eintrag.beschreibung);
    assert key[..n] == eintrag.termin;
    assert key[n + 1..] == CoursePart(eintrag.beschreibung);
  }

  /** Changing only the status in the description, or any other field but the date, keeps the key. */
  lemma KeyIgnoresStatus(eintrag: Record, kurs: string, status1: string, status2: string, ort: string)
    requires eintrag.beschreibung == kurs + Sep + status1
    ensures ErstelleKey(eintrag.(beschreibung := kurs + Sep + status2, status := status2, ort := ort))
         == ErstelleKey(eintrag)
  {
    CoursePartIgnoresStatus(kurs, status1, status2);
  }

  function KeySet(eintraege: seq<Record>): set<string> {
    set r | r in eintraege :: ErstelleKey(r)
  }

  // ------------------------------------------------------------------ difference

  /** The current records whose key is not among the last-sent keys, in their order. */
  function NewSince(aktuelle: seq<Record>, letzteKeys: set<string>): seq<Record>
    decreases |aktuelle|
  {
    if aktuelle == [] then []
    else (if ErstelleKey(aktuelle[0]) in letzteKeys then [] else [aktuelle[0]]) + NewSince(aktuelle[1..], letzteKeys)
  }

  /** The loop of `main` that collects the new entries. */
  method FindNewEntries(aktuelle: seq<Record>, letzte: seq<Record>) returns (neue: seq<Record>)
    ensures neue == NewSince(aktuelle, KeySet(letzte))
  {
    var letzteKeys := KeySet(letzte);
    neue := [];
    assert aktuelle[0..] == aktuelle;
    for i := 0 to |aktuelle|
      invariant neue + NewSince(aktuelle[i..], letzteKeys) == NewSince(aktuelle, letzteKeys)
    {
      var eintrag := aktuelle[i];
      ghost var rest := aktuelle[i..];
      assert rest[0] == eintrag && rest[1..] == aktuelle[i + 1..];
      if ErstelleKey(eintrag) !in letzteKeys {
        assert NewSince(rest, letzteKeys) == [eintrag] + NewSince(aktuelle[i + 1..], letzteKeys);
        assert (neue + [eintrag]) + NewSince(aktuelle[i + 1..], letzteKeys) == neue + NewSince(rest, letzteKeys);
        neue := neue + [eintrag];
      } else {
        assert NewSince(rest, letzteKeys) == NewSince(aktuelle[i + 1..], letzteKeys);
      }
    }
  }

  /**
   * The new entries are exactly the current records whose key is not in the set; a record listed
   * twice is reported twice.
   */
  lemma {:induction false} NewSinceFilter(aktuelle: seq<Record>, letzteKeys: set<string>)
    ensures forall r :: r in NewSince(aktuelle, letzteKeys) <==> r in aktuelle && ErstelleKey(r) !in letzteKeys
    ensures |NewSince(aktuelle, letzteKeys)| <= |aktuelle|
    decreases |aktuelle|
  {
    if aktuelle != [] {
      var head, tail := aktuelle[0], aktuelle[1..];
      NewSinceFilter(tail, letzteKeys);
      assert aktuelle == [head] + tail;
      assert forall r :: r in aktuelle <==> r == head || r in tail;
    }
  }

  /** The new entries keep the order of the current records. */
  lemma {:induction false} NewSinceOrder(aktuelle: seq<Record>, letzteKeys: set<string>)
    ensures Subsequence(NewSince(aktuelle, letzteKeys), aktuelle)
    decreases |aktuelle|
  {
    if aktuelle != [] {
      var tail := aktuelle[1..];
      NewSinceOrder(tail, letzteKeys);
      var neue := NewSince(aktuelle, letzteKeys);
      if ErstelleKey(aktuelle[0]) !in letzteKeys {
        assert neue == [aktuelle[0]] + NewSince(tail, letzteKeys);
        assert neue[0] == aktuelle[0] && neue[1..] == NewSince(tail, letzteKeys);
      } else {
        assert neue == NewSince(tail, letzteKeys);
        if neue != [] {
          assert Subsequence(neue, tail);
        }
      }
    }
  }

  /** Nothing is new exactly when every current key was sent before. */
  lemma NewSinceEmpty(aktuelle: seq<Record>, letzteKeys: set<string>)
    ensures NewSince(aktuelle, letzteKeys) == [] <==> forall r :: r in aktuelle ==> ErstelleKey(r) in letzteKeys
  {
    NewSinceFilter(aktuelle, letzteKeys);
    var neue := NewSince(aktuelle, letzteKeys);
    if neue != [] {
      assert neue[0] in neue;
    }
  }

  /** When no current key was sent before, every current record is new. */
  lemma {:induction false} NewSinceAll(aktuelle: seq<Record>, letzteKeys: set<string>)
    requires forall r :: r in aktuelle ==> ErstelleKey(r) !in letzteKeys
    ensures NewSince(aktuelle, letzteKeys) == aktuelle
    decreases |aktuelle|
  {
    if aktuelle != [] {
      var h, t := aktuelle[0], aktuelle[1..];
      assert NewSince(t, letzteKeys) == t by {
        forall r | r in t
          ensures ErstelleKey(r) !in letzteKeys
        {
          assert r in aktuelle;
        }
        NewSinceAll(t, letzteKeys);
      }
      assert NewSince(aktuelle, letzteKeys) == [h] + NewSince(t, letzteKeys) by {
        assert h in aktuelle;
      }
      assert aktuelle == [h] + t;
    }
  }

  /** Comparing a list with a snapshot of itself finds nothing new. */
  lemma NewSinceUnchanged(aktuelle: seq<Record>)
    ensures NewSince(aktuelle, KeySet(aktuelle)) == []
  {
    NewSinceEmpty(aktuelle, KeySet(aktuelle));
  }

  /** The difference of two blocks of records is the concatenation of their differences. */
  lemma {:induction false} NewSinceAppend(a: seq<Record>, b: seq<Record>, letzteKeys: set<string>)
    ensures NewSince(a + b, letzteKeys) == NewSince(a, letzteKeys) + NewSince(b, letzteKeys)
    decreases |a|
  {
    if a == [] {
      assert a + b == b;
    } else {
      assert (a + b)[0] == a[0] && (a + b)[1..] == a[1..] + b;
      NewSinceAppend(a[1..], b, letzteKeys);
      var h := if ErstelleKey(a[0]) in letzteKeys then [] else [a[0]];
      assert NewSince(a + b, letzteKeys) == h + (NewSince(a[1..], letzteKeys) + NewSince(b, letzteKeys));
      assert h + (NewSince(a[1..], letzteKeys) + NewSince(b, letzteKeys))
        == (h + NewSince(a[1..], letzteKeys)) + NewSince(b, letzteKeys);
    }
  }

  // ------------------------------------------------------------------ one entry

  const Unbekannt: string := "unbekannt"

  /** The course and status shown for an entry: the first two pieces, or the description and `"unbekannt"`. */
  function KursUndStatus(beschreibung: string): (string, string) {
    if Contains(beschreibung, Sep) then
      var teile := SplitOn(beschreibung, Sep);
      (teile[0], teile[1])
    else
      (beschreibung, Unbekannt)
  }

  /**
   * Without a separator the course is the whole description and the status `"unbekannt"`; with
   * one, the description starts with `kurs + " - " + status`, the course is the key's course part,
   * the status runs up to the next separator or the end, and neither piece holds a separator.
   */
  lemma KursUndStatusCases(beschreibung: string)
    ensures !Contains(beschreibung, Sep) ==> KursUndStatus(beschreibung) == (beschreibung, Unbekannt)
    ensures Contains(beschreibung, Sep) ==>
      var (kurs, status) := KursUndStatus(beschreibung);
      var head := kurs + Sep + status;
      && kurs == CoursePart(beschreibung)
      && |head| <= |beschreibung| && beschreibung[..|head|] == head
      && status == CoursePart(beschreibung[|kurs| + |Sep|..])
      && !Contains(kurs, Sep) && !Contains(status, Sep)
  {
    if Contains(beschreibung, Sep) {
      StatusPartNext(beschreibung);
      var teile := SplitOn(beschreibung, Sep);
      JoinSplit(beschreibung, Sep);
      JoinHead(teile, Sep);
      SplitPiecesFree(beschreibung, Sep);
      assert teile[0] in teile && teile[1] in teile;
    }
  }

  /** A description built as `kurs + " - " + status` is shown as that course and that status. */
  lemma KursUndStatusRoundTrip(kurs: string, status: string)
    requires !Contains(kurs + " -", Sep) && !Contains(status, Sep)
    ensures KursUndStatus(kurs + Sep + status) == (kurs, status)
  {
    SplitDescription(kurs, status);
  }

  /** The 41 dashes that frame an entry in the text mail. */
  const Rule: string := "-----------------------------------------"

  /**
   * The lines of the triple-quoted block of `formatiere_eintrag_text`: it opens with a line break,
   * then course, rule, date, status, place and rule, each ended by a line break.
   */
  function TextLines(eintrag: Record): seq<string> {
    var (kurs, status) := KursUndStatus(eintrag.beschreibung);
    ["", kurs, Rule, "Termin: " + eintrag.termin, "Status: " + status, "Ort: " + eintrag.ort, Rule, ""]
  }

  /** `formatiere_eintrag_text`. */
  function FormatiereEintragText(eintrag: Record): string {
    Join(TextLines(eintrag), "\n")
  }

  /** A character absent from the description is absent from the course and the status shown. */
  lemma KursUndStatusChars(beschreibung: string, c: char)
    requires c !in beschreibung && c !in Unbekannt
    ensures c !in KursUndStatus(beschreibung).0 && c !in KursUndStatus(beschreibung).1
  {
    SplitPiecesChars(beschreibung, Sep);
    if Contains(beschreibung, Sep) {
      var teile := SplitOn(beschreibung, Sep);
      assert teile[0] in teile && teile[1] in teile;
    }
  }

  /** When no field holds a line break, the text block reads back as its lines. */
  lemma FormatiereEintragTextLines(eintrag: Record)
    requires '\n' !in eintrag.termin && '\n' !in eintrag.beschreibung && '\n' !in eintrag.ort
    ensures SplitOn(FormatiereEintragText(eintrag), "\n") == TextLines(eintrag)
  {
    var lines := TextLines(eintrag);
    KursUndStatusChars(eintrag.beschreibung, '\n');
    forall i | 0 <= i < |lines|
      ensures !Contains(lines[i], "\n") && lines[i] + "\n"[..0] == lines[i]
    {
      ContainsChar(lines[i], '\n');
    }
    SplitJoin(lines, "\n");
  }

  /** `ort.replace(". ", ".<br>")`. */
  function OrtHtml(ort: string): string {
    ReplaceAll(ort, ". ", ".<br>")
  }

  predicate DotSpaceAt(s: string, i: nat) {
    i + 1 < |s| && s[i] == '.' && s[i + 1] == ' '
  }

  lemma {:induction false} OrtHtmlShape(ort: string)
    ensures forall i: nat :: !DotSpaceAt(OrtHtml(ort), i)
    ensures OrtHtml(ort) != [] ==> ort != [] && (OrtHtml(ort)[0] == ' ' <==> ort[0] == ' ')
    decreases |ort|
  {
    var out := OrtHtml(ort);
    if |ort| < 2 {
    } else if ort[..2] == ". " {
      var rest := OrtHtml(ort[2..]);
      OrtHtmlShape(ort[2..]);
      assert out == ".<br>" + rest;
      forall i: nat | i + 1 < |out|
        ensures !DotSpaceAt(out, i)
      {
        if i >= 5 {
          assert out[i] == rest[i - 5] && out[i + 1] == rest[i - 4];
          assert !DotSpaceAt(rest, i - 5);
        }
      }
    } else {
      var rest := OrtHtml(ort[1..]);
      OrtHtmlShape(ort[1..]);
      assert out == [ort[0]] + rest;
      forall i: nat | i + 1 < |out|
        ensures !DotSpaceAt(out, i)
      {
        if i >= 1 {
          assert out[i] == rest[i - 1] && out[i + 1] == rest[i];
          assert !DotSpaceAt(rest, i - 1);
        } else if ort[0] == '.' {
          assert ort[1] != ' ' by { assert ort[..2] == [ort[0], ort[1]]; }
          assert ort[1..] != [] && ort[1..][0] == ort[1];
        }
      }
    }
  }

  /** `ort.replace(". ", ".<br>") == ".<br>".join(ort.split(". "))`: each `". "` becomes `".<br>"` and the text between stays. */
  lemma OrtHtmlSplitJoin(ort: string)
    ensures OrtHtml(ort) == Join(SplitOn(ort, ". "), ".<br>")
  {
    ReplaceAllSplitJoin(ort, ". ", ".<br>");
  }

  /** A place written as lines joined by `". "` is shown as the same lines joined by `".<br>"`. */
  lemma OrtHtmlJoin(zeilen: seq<string>)
    requires |zeilen| >= 1
    requires forall i :: 0 <= i < |zeilen| - 1 ==> !Contains(zeilen[i] + ".", ". ")
    requires !Contains(zeilen[|zeilen| - 1], ". ")
    ensures OrtHtml(Join(zeilen, ". ")) == Join(zeilen, ".<br>")
  {
    assert ". "[..|". "| - 1] == ".";
    SplitJoin(zeilen, ". ");
    OrtHtmlSplitJoin(Join(zeilen, ". "));
  }

  /** After the rewrite no `". "` is left in the place. */
  lemma OrtHtmlNoDotSpace(ort: string)
    ensures !Contains(OrtHtml(ort), ". ")
  {
    OrtHtmlShape(ort);
    var out := OrtHtml(ort);
    if Contains(out, ". ") {
      var i := Find(out, ". ").value;
      assert out[i] == out[i..i + 2][0] == '.' && out[i + 1] == out[i..i + 2][1] == ' ';
      assert DotSpaceAt(out, i);
    }
  }

  /** A place without `". "` is shown unchanged. */
  lemma {:induction false} OrtHtmlFixed(ort: string)
    requires forall i: nat :: !DotSpaceAt(ort, i)
    ensures OrtHtml(ort) == ort
    decreases |ort|
  {
    if |ort| >= 2 {
      assert ort[..2] != ". " by { assert !DotSpaceAt(ort, 0); }
      forall i: nat
        ensures !DotSpaceAt(ort[1..], i)
      {
        assert !DotSpaceAt(ort, i + 1);
      }
      OrtHtmlFixed(ort[1..]);
    }
  }

  /** The four values `formatiere_eintrag_html` places into its HTML template. */
  datatype HtmlEintrag = HtmlEintrag(kurs: string, termin: string, status: string, ort: string)

  function FormatiereEintragHtml(eintrag: Record): HtmlEintrag {
    var (kurs, status) := KursUndStatus(eintrag.beschreibung);
    HtmlEintrag(kurs, eintrag.termin, status, OrtHtml(eintrag.ort))
  }

  /** The HTML entry shows the same course and status as the text entry, and a place free of `". "`. */
  lemma FormatiereEintragHtmlAgrees(eintrag: Record)
    ensures var h := FormatiereEintragHtml(eintrag);
      (h.kurs, h.status) == KursUndStatus(eintrag.beschreibung) && h.termin == eintrag.termin
      && !Contains(h.ort, ". ")
      && ((forall i: nat :: !DotSpaceAt(eintrag.ort, i)) ==> h.ort == eintrag.ort)
  {
    OrtHtmlNoDotSpace(eintrag.ort);
    if forall i: nat :: !DotSpaceAt(eintrag.ort, i) {
      OrtHtmlFixed(eintrag.ort);
    }
  }

  // ------------------------------------------------------------------ subject and text

  /** The subject without new entries, which is also the sentinel the archive looks for. */
  const NoEntriesSubject: string := "Keine neuen Lehrg\U{E4}nge gefunden"
  const NoEntriesText: string := "Es wurden keine neuen Lehrg\U{E4}nge gefunden.\n"
  const SubjectPrefix: string := "Neue Lehrg\U{E4}nge gefunden ("

  function Betreff(n: nat): string {
    SubjectPrefix + NatToString(n) + ")"
  }

  function Headline(n: nat): string {
    "Neue Lehrg\U{E4}nge gefunden: " + NatToString(n) + "\n\n"
  }

  /** The text blocks of the entries, one after the other. */
  function EntryTexts(neue: seq<Record>): string
    decreases |neue|
  {
    if neue == [] then "" else EntryTexts(neue[..|neue| - 1]) + FormatiereEintragText(neue[|neue| - 1])
  }

  function Subject(neue: seq<Record>): string {
    if neue != [] then Betreff(|neue|) else NoEntriesSubject
  }

  function Digest(neue: seq<Record>): string {
    if neue != [] then Headline(|neue|) + EntryTexts(neue) else NoEntriesText
  }

  /** The subject and text of `main` (and of `sende_email`, which composes the same for new entries). */
  method ComposeDigest(neue: seq<Record>) returns (betreff: string, textContent: string)
    ensures betreff == Subject(neue) && textContent == Digest(neue)
  {
    if neue == [] {
      return NoEntriesSubject, NoEntriesText;
    }
    betreff := Betreff(|neue|);
    textContent := AppendEntryTexts(Headline(|neue|), neue);
  }

  /** The `text_content += formatiere_eintrag_text(eintrag)` loop. */
  method AppendEntryTexts(start: string, neue: seq<Record>) returns (textContent: string)
    ensures textContent == start + EntryTexts(neue)
  {
    textContent := start;
    for i := 0 to |neue|
      invariant textContent == start + EntryTexts(neue[..i])
    {
      var block := FormatiereEintragText(neue[i]);
      ghost var done := neue[..i + 1];
      assert done[..|done| - 1] == neue[..i] && done[|done| - 1] == neue[i];
      assert EntryTexts(done) == EntryTexts(neue[..i]) + block;
      textContent := textContent + block;
    }
    assert neue[..|neue|] == neue;
  }

  /** The subject carries the no-entries sentinel exactly when there are no new entries. */
  lemma SubjectSentinel(neue: seq<Record>)
    ensures Contains(Subject(neue), NoEntriesSubject) <==> neue == []
  {
    if neue == [] {
      assert NoEntriesSubject[0..|NoEntriesSubject|] == NoEntriesSubject;
      ContainsWhenOccurs(NoEntriesSubject, NoEntriesSubject, 0);
    } else {
      var digits := NatToString(|neue|);
      assert Subject(neue) == SubjectPrefix + digits + ")";
      assert 'K' !in SubjectPrefix;
      assert 'K' !in digits;
      ContainsHead(Subject(neue), NoEntriesSubject);
    }
  }

  /** The number in the subject reads back as the number of new entries. */
  lemma SubjectCount(neue: seq<Record>)
    requires neue != []
    ensures var b, p := Subject(neue), |SubjectPrefix|;
      p < |b| && b[..p] == SubjectPrefix && b[|b| - 1] == ')'
      && (forall i :: p <= i < |b| - 1 ==> '0' <= b[i] <= '9')
      && DigitsValue(b[p..|b| - 1]) == |neue|
  {
    var b, p := Subject(neue), |SubjectPrefix|;
    var digits := NatToString(|neue|);
    assert b[p..|b| - 1] == digits;
    assert b[..p] == SubjectPrefix;
    NatToStringRoundTrip(|neue|);
  }

  // ------------------------------------------------------------------ archive

  /** The value of an environment variable, or the default when it is unset. */
  function GetEnv(v: Option<string>, default: string): string {
    match v
    case None => default
    case Some(x) => x
  }

  /** `value.lower() == "true"`. */
  predicate IsTrue(value: string) {
    Lower(value) == "true"
  }

  const DefaultArchiveDir: string := "data/email_archive"

  /** `SAVE_EMAILS`, `SAVE_EMPTY_EMAILS` and `EMAIL_ARCHIVE_DIR`. */
  datatype ArchiveEnv = ArchiveEnv(saveEmails: Option<string>, saveEmptyEmails: Option<string>, archiveDir: Option<string>)

  /** The clock readings for the file name and the `Datum:` line, and whether the write succeeds. */
  datatype ArchiveIo = ArchiveIo(timestamp: string, datum: string, writeSucceeds: bool)

  /** The two toggles of `speichere_email_als_datei`, both `"True"` by default. */
  predicate ShouldArchive(env: ArchiveEnv, betreff: string) {
    && IsTrue(GetEnv(env.saveEmails, "True"))
    && (IsTrue(GetEnv(env.saveEmptyEmails, "True")) || !Contains(betreff, NoEntriesSubject))
  }

  /**
   * Nothing is archived unless `SAVE_EMAILS` is `"true"` in any case; a no-entries mail is not
   * archived unless `SAVE_EMPTY_EMAILS` is too; with both unset every mail is archived.
   */
  lemma ArchiveToggles(env: ArchiveEnv, betreff: string)
    ensures !IsTrue(GetEnv(env.saveEmails, "True")) ==> !ShouldArchive(env, betreff)
    ensures !IsTrue(GetEnv(env.saveEmptyEmails, "True")) && Contains(betreff, NoEntriesSubject)
      ==> !ShouldArchive(env, betreff)
    ensures env.saveEmails.None? && env.saveEmptyEmails.None? ==> ShouldArchive(env, betreff)
    ensures ShouldArchive(env.(saveEmails := Some("TRUE")), betreff) == ShouldArchive(env.(saveEmails := Some("true")), betreff)
  {
    assert Lower("True") == "true";
    assert Lower("TRUE") == "true";
  }

  const Forbidden: set<char> := {'\\', '/', '*', '?', ':', '"', '<', '>', '|'}

  /** The regular-expression substitution that deletes every character of `Forbidden`. */
  function RemoveForbidden(s: string): (r: string)
    ensures |r| <= |s| && forall c :: c in r ==> c in s && c !in Forbidden
    ensures (forall c :: c in s ==> c !in Forbidden) ==> r == s
    decreases |s|
  {
    if s == [] then [] else (if s[0] in Forbidden then [] else [s[0]]) + RemoveForbidden(s[1..])
  }

  /** The deletion works character by character: a forbidden character goes, any other stays. */
  lemma RemoveForbiddenChar(c: char)
    ensures RemoveForbidden([c]) == if c in Forbidden then [] else [c]
  {
    assert [c][1..] == [];
  }

  /** Deleting from two pieces of text gives the two cleaned pieces one after the other. */
  lemma {:induction false} RemoveForbiddenAppend(a: string, b: string)
    ensures RemoveForbidden(a + b) == RemoveForbidden(a) + RemoveForbidden(b)
    decreases |a|
  {
    if a == [] {
      assert a + b == b;
    } else {
      var h := if a[0] in Forbidden then [] else [a[0]];
      assert (a + b)[0] == a[0] && (a + b)[1..] == a[1..] + b;
      assert RemoveForbidden(a + b) == h + RemoveForbidden(a[1..] + b);
      RemoveForbiddenAppend(a[1..], b);
      AppendAssoc(h, RemoveForbidden(a[1..]), RemoveForbidden(b));
    }
  }

  /** `s.replace(" ", "_")`. */
  function SpacesToUnderscores(s: string): (r: string)
    ensures |r| == |s|
    ensures forall i :: 0 <= i < |s| ==> r[i] != ' ' && (s[i] == ' ' ==> r[i] == '_') && (s[i] != ' ' ==> r[i] == s[i])
  {
    seq(|s|, i requires 0 <= i < |s| => if s[i] == ' ' then '_' else s[i])
  }

  /** The subject as it appears in the archive file name. */
  function SafeBetreff(betreff: string): (safe: string)
    ensures |safe| <= |betreff|
    ensures forall c :: c in safe ==> c !in Forbidden && c != ' '
  {
    var r := RemoveForbidden(betreff);
    var safe := SpacesToUnderscores(r);
    assert forall c :: c in safe ==> c in r || c == '_';
    safe
  }

  /** A subject that is already safe is kept as it is; hence sanitising twice changes nothing. */
  lemma SafeBetreffFixed(betreff: string)
    ensures (forall c :: c in betreff ==> c !in Forbidden && c != ' ') ==> SafeBetreff(betreff) == betreff
    ensures SafeBetreff(SafeBetreff(betreff)) == SafeBetreff(betreff)
  {
    forall s: string | forall c :: c in s ==> c !in Forbidden && c != ' '
      ensures SafeBetreff(s) == s
    {
      assert RemoveForbidden(s) == s;
      forall i | 0 <= i < |s|
        ensures SpacesToUnderscores(s)[i] == s[i]
      {
        assert s[i] in s;
      }
      assert SpacesToUnderscores(s) == s;
    }
  }

  function ArchiveFilename(dir: string, timestamp: string, betreff: string): string {
    dir + "/" + timestamp + "_" + SafeBetreff(betreff) + ".txt"
  }

  /** With a timestamp free of `/`, the archive file lies directly in the archive directory. */
  lemma ArchiveFilenameInDir(dir: string, timestamp: string, betreff: string)
    requires '/' !in timestamp
    ensures var f := ArchiveFilename(dir, timestamp, betreff);
      |dir| < |f| && f[..|dir| + 1] == dir + "/" && '/' !in f[|dir| + 1..]
      && f[|f| - 4..] == ".txt"
  {
    var f := ArchiveFilename(dir, timestamp, betreff);
    assert f[|dir| + 1..] == timestamp + "_" + SafeBetreff(betreff) + ".txt";
    assert f[..|dir| + 1] == dir + "/";
  }

  /** The separator line of an archived mail: 50 dashes. */
  const ArchiveRule: string := "--------------------------------------------------"

  /** What `speichere_email_als_datei` writes into the file. */
  function ArchiveContent(io: ArchiveIo, betreff: string, textContent: string): string {
    "Betreff: " + betreff + "\nDatum: " + io.datum + "\n" + ArchiveRule + "\n\n" + textContent
  }

  /**
   * The archive directory, file name to content, after one call of `speichere_email_als_datei`:
   * `open(filename, "w")` creates the file or replaces the one of that name; nothing else changes.
   */
  function Archived(files: map<string, string>, env: ArchiveEnv, io: ArchiveIo, betreff: string, textContent: string)
    : (r: map<string, string>)
    ensures var name := ArchiveFilename(GetEnv(env.archiveDir, DefaultArchiveDir), io.timestamp, betreff);
      && r.Keys <= files.Keys + {name}
      && (forall f :: f in files && f != name ==> f in r && r[f] == files[f])
      && (ShouldArchive(env, betreff) && io.writeSucceeds ==> name in r && r[name] == ArchiveContent(io, betreff, textContent))
      && (!ShouldArchive(env, betreff) || !io.writeSucceeds ==> r == files)
  {
    if ShouldArchive(env, betreff) && io.writeSucceeds then
      files[ArchiveFilename(GetEnv(env.archiveDir, DefaultArchiveDir), io.timestamp, betreff) := ArchiveContent(io, betreff, textContent)]
    else files
  }

  /**
   * Two archivings of the same subject within one second share the file name, so the second
   * write replaces the first and one file remains.
   */
  lemma ArchiveSameSecond(files: map<string, string>, env: ArchiveEnv, io1: ArchiveIo, io2: ArchiveIo,
                          betreff: string, textContent: string)
    requires io1.timestamp == io2.timestamp && io2.writeSucceeds
    ensures Archived(Archived(files, env, io1, betreff, textContent), env, io2, betreff, textContent)
         == Archived(files, env, io2, betreff, textContent)
  {
  }

  /** Two archivings of the same subject at different (equally long) timestamps leave two files. */
  lemma ArchiveApart(files: map<string, string>, env: ArchiveEnv, io1: ArchiveIo, io2: ArchiveIo,
                     betreff: string, textContent: string)
    requires |io1.timestamp| == |io2.timestamp| && io1.timestamp != io2.timestamp
    requires ShouldArchive(env, betreff) && io1.writeSucceeds && io2.writeSucceeds
    ensures var dir := GetEnv(env.archiveDir, DefaultArchiveDir);
      var r := Archived(Archived(files, env, io1, betreff, textContent), env, io2, betreff, textContent);
      ArchiveFilename(dir, io1.timestamp, betreff) in r && ArchiveFilename(dir, io2.timestamp, betreff) in r
  {
    var dir := GetEnv(env.archiveDir, DefaultArchiveDir);
    var f1, f2 := ArchiveFilename(dir, io1.timestamp, betreff), ArchiveFilename(dir, io2.timestamp, betreff);
    var n := |dir| + 1;
    assert f1[n..n + |io1.timestamp|] == io1.timestamp;
    assert f2[n..n + |io2.timestamp|] == io2.timestamp;
  }

  /** The e-mail archive directory: the content of each file, by file name. */
  class MailArchive {
    var files: map<string, string>

    constructor ()
      ensures files == map[]
    {
      files := map[];
    }

    /** `speichere_email_als_datei`: a failed write is logged and otherwise ignored. */
    method Save(env: ArchiveEnv, io: ArchiveIo, betreff: string, textContent: string)
      modifies this
      ensures files == Archived(old(files), env, io, betreff, textContent)
    {
      if !IsTrue(GetEnv(env.saveEmails, "True")) {
        return;
      }
      if !IsTrue(GetEnv(env.saveEmptyEmails, "True")) && Contains(betreff, NoEntriesSubject) {
        return;
      }
      var dir := GetEnv(env.archiveDir, DefaultArchiveDir);
      var filename := ArchiveFilename(dir, io.timestamp, betreff);
      if io.writeSucceeds {
        files := files[filename := ArchiveContent(io, betreff, textContent)];
      }
    }
  }

  // ------------------------------------------------------------------ sending

  /** `RECIPIENT_EMAIL`, `SMTP_USERNAME` and `SMTP_PASSWORD`; whether `SMTP_PORT` parses is part of `SendIo`. */
  datatype MailEnv = MailEnv(recipientEmail: Option<string>, smtpUsername: Option<string>, smtpPassword: Option<string>)

  /**
   * What `sende_email` learns from code outside the model: whether `int()` accepts the port,
   * whether `CredentialManager()` starts, the stored credentials (none when loading fails), the
   * archive write, and whether the SMTP exchange succeeds.
   */
  datatype SendIo = SendIo(portIsInteger: bool, credentialManagerStarts: bool,
                           storedCredentials: Option<(string, string)>, archive: ArchiveIo,
                           transportSucceeds: bool)

  /** How far `sende_email` gets before it talks to the SMTP server. */
  datatype SendPlan =
    | NothingToSend
    | BadPort
    | NoRecipients
    | NoCredentialManager
    | NoCredentials
    | Ready(recipients: seq<string>, username: string, password: string)

  /** The guards of `sende_email`, in the order the code meets them. */
  function PlanSend(neue: seq<Record>, env: MailEnv, io: SendIo): (plan: SendPlan)
    ensures neue == [] <==> plan == NothingToSend
    ensures neue != [] && !io.portIsInteger ==> plan == BadPort
    ensures neue != [] && io.portIsInteger && CommaList(GetEnv(env.recipientEmail, "")) == [] ==> plan == NoRecipients
    ensures (neue != [] && io.portIsInteger && CommaList(GetEnv(env.recipientEmail, "")) != []
             && !io.credentialManagerStarts) ==> plan == NoCredentialManager
    ensures var user, pass := GetEnv(env.smtpUsername, ""), GetEnv(env.smtpPassword, "");
      (neue != [] && io.portIsInteger && CommaList(GetEnv(env.recipientEmail, "")) != [] && io.credentialManagerStarts
       && !(user != "" && pass != "") && io.storedCredentials.None?) ==> plan == NoCredentials
    ensures var user, pass := GetEnv(env.smtpUsername, ""), GetEnv(env.smtpPassword, "");
      (neue != [] && io.portIsInteger && CommaList(GetEnv(env.recipientEmail, "")) != [] && io.credentialManagerStarts
       && ((user != "" && pass != "") || io.storedCredentials.Some?)) ==> plan.Ready?
    ensures plan.Ready? ==>
      && io.portIsInteger && io.credentialManagerStarts
      && plan.recipients == CommaList(GetEnv(env.recipientEmail, "")) && plan.recipients != []
      && (forall a :: a in plan.recipients ==> a != "" && Trimmed(a) && ',' !in a)
    ensures plan.Ready? ==>
      var user, pass := GetEnv(env.smtpUsername, ""), GetEnv(env.smtpPassword, "");
      if user != "" && pass != "" then (plan.username, plan.password) == (user, pass)
      else io.storedCredentials == Some((plan.username, plan.password))
  {
    if neue == [] then NothingToSend
    else if !io.portIsInteger then BadPort
    else
      var recipients := CommaList(GetEnv(env.recipientEmail, ""));
      if recipients == [] then NoRecipients
      else if !io.credentialManagerStarts then NoCredentialManager
      else
        var user, pass := GetEnv(env.smtpUsername, ""), GetEnv(env.smtpPassword, "");
        if user != "" && pass != "" then Ready(recipients, user, pass)
        else
          match io.storedCredentials
          case None => NoCredentials
          case Some((u, p)) => Ready(recipients, u, p)
  }

  /**
   * `sende_email`: `False` at every guard; otherwise the mail is archived and the result is whether
   * the SMTP exchange succeeds.
   */
  method SendeEmail(archive: MailArchive, archiveEnv: ArchiveEnv, env: MailEnv, io: SendIo, neue: seq<Record>)
    returns (sent: bool)
    modifies archive
    ensures sent <==> PlanSend(neue, env, io).Ready? && io.transportSucceeds
    ensures archive.files == if PlanSend(neue, env, io).Ready?
      then Archived(old(archive.files), archiveEnv, io.archive, Subject(neue), Digest(neue))
      else old(archive.files)
  {
    var plan := PlanSend(neue, env, io);
    if !plan.Ready? {
      return false;
    }
    var betreff, textContent := ComposeDigest(neue);
    archive.Save(archiveEnv, io.archive, betreff, textContent);
    sent := io.transportSucceeds;
  }

  // ------------------------------------------------------------------ one run

  /**
   * `main`: compare the scraped records with the snapshot, archive the digest, send it when there
   * is something new, and then replace the snapshot by the scraped records, whether or not the
   * mail went out.
   */
  method RunNotifier(termine: StoredFile, lastSent: RecordStore, archive: MailArchive,
                     archiveEnv: ArchiveEnv, env: MailEnv, archiveIo: ArchiveIo, io: SendIo)
    returns (neue: seq<Record>, emailSent: bool)
    modifies lastSent, archive
    ensures neue == NewSince(LadeJson(termine), KeySet(old(lastSent.records)))
    ensures lastSent.records == if neue != [] then LadeJson(termine) else old(lastSent.records)
    ensures emailSent <==> neue != [] && PlanSend(neue, env, io).Ready? && io.transportSucceeds
    ensures var once := Archived(old(archive.files), archiveEnv, archiveIo, Subject(neue), Digest(neue));
      archive.files == if PlanSend(neue, env, io).Ready?
        then Archived(once, archiveEnv, io.archive, Subject(neue), Digest(neue))
        else once
  {
    var aktuelle := LadeJson(termine);
    neue := FindNewEntries(aktuelle, lastSent.records);
    var betreff, textContent := ComposeDigest(neue);
    archive.Save(archiveEnv, archiveIo, betreff, textContent);
    emailSent := false;
    if neue != [] {
      emailSent := SendeEmail(archive, archiveEnv, env, io, neue);
    }
    if neue != [] {
      lastSent.Overwrite(aktuelle);
    }
  }
}
