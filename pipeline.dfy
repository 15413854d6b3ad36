/**
 * The two stages together. The scrape stage identifies a course by a normalised key, the notify
 * stage by a raw one; as long as no date contains `|`, raw keys that agree imply normalised keys
 * that agree, and a notify run reports exactly the records the scrape run before it appended.
 */
module Pipeline {
  import opened Text
  import opened Records
  import Monitor
  import MailNotifier

  /** Equal raw keys give equal normalised keys when neither date contains `|`. */
  lemma MailKeyDeterminesMonitorKey(a: Record, b: Record)
    requires '|' !in a.termin && '|' !in b.termin
    requires MailNotifier.ErstelleKey(a) == MailNotifier.ErstelleKey(b)
    ensures Monitor.KeyOf(a) == Monitor.KeyOf(b)
  {
    var ka, kb := MailNotifier.ErstelleKey(a), MailNotifier.ErstelleKey(b);
    var n, m := |a.termin|, |b.termin|;
    assert ka[n] == '|' && kb[m] == '|';
    assert forall i :: 0 <= i < n ==> ka[i] == a.termin[i] != '|';
    assert forall i :: 0 <= i < m ==> kb[i] == b.termin[i] != '|';
    assert n == m;
    assert a.termin == ka[..n] == kb[..n] == b.termin;
    assert CoursePart(a.beschreibung) == ka[n + 1..] == kb[n + 1..] == CoursePart(b.beschreibung);
  }

  /**
   * The converse fails: two records on the same date whose course names differ only in case or
   * spacing share the normalised key but not the raw one.
   */
  lemma KeysDisagreeOnCase(a: Record, b: Record, kurs1: string, kurs2: string, status1: string, status2: string)
    requires a.termin == b.termin
    requires a.beschreibung == kurs1 + Sep + status1 && b.beschreibung == kurs2 + Sep + status2
    requires !Contains(kurs1 + " -", Sep) && !Contains(kurs2 + " -", Sep)
    requires kurs1 != kurs2 && Monitor.KeyPart(kurs1) == Monitor.KeyPart(kurs2)
    ensures Monitor.KeyOf(a) == Monitor.KeyOf(b)
    ensures MailNotifier.ErstelleKey(a) != MailNotifier.ErstelleKey(b)
  {
    SplitDescription(kurs1, status1);
    SplitDescription(kurs2, status2);
    var n := |a.termin| + 1;
    var ka, kb := MailNotifier.ErstelleKey(a), MailNotifier.ErstelleKey(b);
    assert ka[n..] == kurs1 && kb[n..] == kurs2;
  }

  /** `"TM2"` and `"tm2"` meet the conditions above, so records such as `"TM2 - geplant"` and `"tm2 - geplant"` on one date do. */
  lemma CaseVariantsExample()
    ensures !Contains("TM2" + " -", Sep) && !Contains("tm2" + " -", Sep)
    ensures "TM2" != "tm2" && Monitor.KeyPart("TM2") == Monitor.KeyPart("tm2")
  {
    NoSepInShortName("TM2");
    NoSepInShortName("tm2");
    KeyPartOfExample("TM2");
    KeyPartOfExample("tm2");
    LowerOfExample();
  }

  lemma NoSepInShortName(kurs: string)
    requires kurs == "TM2" || kurs == "tm2"
    ensures !Contains(kurs + " -", Sep)
  {
    forall j: nat | j <= 2
      ensures !OccursAt(kurs + " -", Sep, j)
    {
      var s := kurs + " -";
      assert s[j..j + 3][1] == s[j + 1] != '-';
    }
  }

  lemma KeyPartOfExample(x: string)
    requires x == "TM2" || x == "tm2"
    ensures Monitor.KeyPart(x) == Lower(x)
  {
    assert Canonical(x);
    Monitor.BereinigeTextFixed(x);
  }

  lemma LowerOfExample()
    ensures Lower("TM2") == "tm2" && Lower("tm2") == "tm2"
  {
    var u, l := Lower("TM2"), Lower("tm2");
    assert u[0] == 't' && u[1] == 'm' && u[2] == '2';
    assert l[0] == 't' && l[1] == 'm' && l[2] == '2';
  }

  /**
   * The snapshot and the store are in step: the snapshot holds only stored records (the store only
   * grows), and every stored record's raw key was in the snapshot.
   */
  predicate InSync(lastSent: seq<Record>, daten: seq<Record>) {
    && (forall r :: r in lastSent ==> r in daten)
    && (forall r :: r in daten ==> MailNotifier.ErstelleKey(r) in MailNotifier.KeySet(lastSent))
  }

  predicate PipeFree(rs: seq<Record>) {
    forall r :: r in rs ==> '|' !in r.termin
  }

  /**
   * One scrape run followed by one notify run, starting in step: the notify run reports exactly the
   * records the scrape run appended, in order, and the two files are in step again afterwards.
   */
  lemma NotifierReportsMerged(lastSent: seq<Record>, daten: seq<Record>, kandidaten: seq<Record>)
    requires InSync(lastSent, daten) && PipeFree(daten) && PipeFree(kandidaten)
    ensures var neue := Monitor.FreshEntries(Monitor.KeySet(daten), kandidaten);
      MailNotifier.NewSince(daten + neue, MailNotifier.KeySet(lastSent)) == neue
    ensures var neue := Monitor.FreshEntries(Monitor.KeySet(daten), kandidaten);
      InSync(if neue != [] then daten + neue else lastSent, daten + neue)
  {
    var neue := Monitor.FreshEntries(Monitor.KeySet(daten), kandidaten);
    var keys := MailNotifier.KeySet(lastSent);
    Monitor.FreshEntriesNew(Monitor.KeySet(daten), kandidaten);
    forall r | r in neue
      ensures MailNotifier.ErstelleKey(r) !in keys
    {
      if MailNotifier.ErstelleKey(r) in keys {
        var s :| s in lastSent && MailNotifier.ErstelleKey(s) == MailNotifier.ErstelleKey(r);
        MailKeyDeterminesMonitorKey(s, r);
        assert false;
      }
    }
    MailNotifier.NewSinceAppend(daten, neue, keys);
    MailNotifier.NewSinceEmpty(daten, keys);
    MailNotifier.NewSinceAll(neue, keys);
    if neue == [] {
      assert daten + neue == daten;
    }
  }
}
