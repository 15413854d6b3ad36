/**
 * The parts of Python's `str` that both stages rely on: which characters are whitespace,
 * `strip`, the collapse `re.sub(r'\s+', ' ', s)`, `lower`, `in`, `split(sep)`, `replace`,
 * the code-point order that `list.sort` uses on strings, and `str(n)` for a count.
 */
module Text {
  import opened Wrappers

  // ------------------------------------------------------------------ whitespace

  /** `c.isspace()`; `\s` in a `str` regex and `str.strip()` use the same set of characters. */
  predicate IsSpace(c: char) {
    c == ' ' || '\t' <= c <= '\r' || '\U{1C}' <= c <= '\U{1F}' || c == '\U{85}' || c == '\U{A0}'
    || c == '\U{1680}' || '\U{2000}' <= c <= '\U{200A}' || c == '\U{2028}' || c == '\U{2029}'
    || c == '\U{202F}' || c == '\U{205F}' || c == '\U{3000}'
  }

  predicate AllSpace(s: string) {
    forall i :: 0 <= i < |s| ==> IsSpace(s[i])
  }

  /** No whitespace at either end. */
  predicate Trimmed(s: string) {
    s == [] || (!IsSpace(s[0]) && !IsSpace(s[|s| - 1]))
  }

  /** Every whitespace character is a plain space, and no two whitespace characters are adjacent. */
  predicate Squeezed(s: string) {
    forall i :: 0 <= i < |s| && IsSpace(s[i]) ==> s[i] == ' ' && (i + 1 < |s| ==> !IsSpace(s[i + 1]))
  }

  /** Words separated by single plain spaces, nothing at the ends. */
  predicate Canonical(s: string) {
    Trimmed(s) && Squeezed(s)
  }

  /** The end of the whitespace run that starts at `from`. */
  function SpaceRunEnd(s: string, from: nat): (e: nat)
    requires from <= |s|
    ensures from <= e <= |s| && (e == |s| || !IsSpace(s[e]))
    ensures forall i :: from <= i < e ==> IsSpace(s[i])
    decreases |s| - from
  {
    if from < |s| && IsSpace(s[from]) then SpaceRunEnd(s, from + 1) else from
  }

  /** The start of the whitespace run that ends at `stop`. */
  function SpaceRunStart(s: string, stop: nat): (b: nat)
    requires stop <= |s|
    ensures b <= stop && (b == 0 || !IsSpace(s[b - 1]))
    ensures forall i :: b <= i < stop ==> IsSpace(s[i])
    decreases stop
  {
    if 0 < stop && IsSpace(s[stop - 1]) then SpaceRunStart(s, stop - 1) else stop
  }

  /** `s.lstrip()`. */
  function TrimStart(s: string): string {
    s[SpaceRunEnd(s, 0)..]
  }

  /** `s.rstrip()`. */
  function TrimEnd(s: string): string {
    s[..SpaceRunStart(s, |s|)]
  }

  lemma AllSpaceAppend(a: string, b: string)
    ensures AllSpace(a + b) <==> AllSpace(a) && AllSpace(b)
  {
    if AllSpace(a + b) {
      forall i | 0 <= i < |b| ensures IsSpace(b[i]) { assert (a + b)[|a| + i] == b[i]; }
      forall i | 0 <= i < |a| ensures IsSpace(a[i]) { assert (a + b)[i] == a[i]; }
    }
  }

  /** `s.strip()`: the middle slice of `s` left after cutting whitespace, and only whitespace, off both ends. */
  function Strip(s: string): (r: string)
    ensures Trimmed(r)
    ensures var k := SpaceRunEnd(s, 0);
      k + |r| <= |s| && r == s[k..k + |r|] && AllSpace(s[..k]) && AllSpace(s[k + |r|..])
    ensures r == [] <==> AllSpace(s)
  {
    StripShape(s);
    TrimEnd(TrimStart(s))
  }

  lemma StripShape(s: string)
    ensures var r := TrimEnd(TrimStart(s)); var k := |s| - |TrimStart(s)|;
      && 0 <= k <= |s| - |r| && r == s[k..k + |r|] && AllSpace(s[..k]) && AllSpace(s[k + |r|..])
      && (r == [] <==> AllSpace(s))
  {
    var k := SpaceRunEnd(s, 0);
    var t := s[k..];
    var b := SpaceRunStart(t, |t|);
    assert TrimStart(s) == t && TrimEnd(t) == t[..b];
    assert t[..b] == s[k..k + b];
    forall i | 0 <= i < k ensures IsSpace(s[..k][i]) {
      assert s[..k][i] == s[i];
    }
    var u := s[k + b..];
    forall i | 0 <= i < |u| ensures IsSpace(u[i]) {
      assert u[i] == t[b + i];
    }
    assert k < |s| ==> t[0] == s[k] && !IsSpace(t[0]);
    if b == 0 {
      assert s[..k] == s;
    }
  }

  lemma StripFixed(s: string)
    requires Trimmed(s)
    ensures Strip(s) == s
  {
  }

  /** `re.sub(r'\s+', ' ', s)`: every maximal run of whitespace becomes one plain space. */
  function Squeeze(s: string): (r: string)
    ensures |r| <= |s|
    ensures r == [] <==> s == []
    ensures r != [] ==> (IsSpace(r[0]) <==> IsSpace(s[0]))
    ensures Squeezed(r)
    decreases |s|
  {
    if s == [] then []
    else if IsSpace(s[0]) then [' '] + Squeeze(TrimStart(s[1..]))
    else [s[0]] + Squeeze(s[1..])
  }

  /** The collapse ends in whitespace exactly when the text does. */
  lemma {:induction false} SqueezeLast(s: string)
    requires s != []
    ensures var r := Squeeze(s); IsSpace(r[|r| - 1]) <==> IsSpace(s[|s| - 1])
    decreases |s|
  {
    var r := Squeeze(s);
    if IsSpace(s[0]) {
      var x := s[1..];
      var k := SpaceRunEnd(x, 0);
      var t := x[k..];
      assert TrimStart(x) == t;
      if t != [] {
        SqueezeLast(t);
        assert r[|r| - 1] == Squeeze(t)[|Squeeze(t)| - 1];
        assert s[|s| - 1] == t[|t| - 1];
      } else {
        assert r == [' '];
        assert |s| == 1 || IsSpace(x[|x| - 1]);
      }
    } else if |s| > 1 {
      SqueezeLast(s[1..]);
      assert r[|r| - 1] == Squeeze(s[1..])[|Squeeze(s[1..])| - 1];
    }
  }

  lemma SqueezedSlice(s: string, a: nat, b: nat)
    requires Squeezed(s) && a <= b <= |s|
    ensures Squeezed(s[a..b])
  {
    forall i | 0 <= i < b - a && IsSpace(s[a..b][i])
      ensures s[a..b][i] == ' ' && (i + 1 < b - a ==> !IsSpace(s[a..b][i + 1]))
    {
      assert s[a..b][i] == s[a + i];
    }
  }

  /** A string already in squeezed form is left alone by the collapse. */
  lemma {:induction false} SqueezeFixed(s: string)
    requires Squeezed(s)
    ensures Squeeze(s) == s
    decreases |s|
  {
    if s != [] {
      SqueezedSlice(s, 1, |s|);
      SqueezeFixed(s[1..]);
      if IsSpace(s[0]) {
        assert s[1..] == [] || !IsSpace(s[1..][0]);
        assert TrimStart(s[1..]) == s[1..];
        assert s == [' '] + s[1..];
      } else {
        assert s == [s[0]] + s[1..];
      }
    }
  }

  /** The non-whitespace characters of `s`, in order. */
  function NonSpace(s: string): string
    decreases |s|
  {
    if s == [] then [] else (if IsSpace(s[0]) then [] else [s[0]]) + NonSpace(s[1..])
  }

  lemma {:induction false} NonSpaceAppend(a: string, b: string)
    ensures NonSpace(a + b) == NonSpace(a) + NonSpace(b)
    decreases |a|
  {
    if a == [] {
      assert a + b == b;
    } else {
      var h := if IsSpace(a[0]) then [] else [a[0]];
      assert (a + b)[0] == a[0] && (a + b)[1..] == a[1..] + b;
      assert NonSpace(a + b) == h + NonSpace(a[1..] + b);
      assert NonSpace(a) == h + NonSpace(a[1..]);
      NonSpaceAppend(a[1..], b);
    }
  }

  lemma {:induction false} NonSpaceOfSpaces(s: string)
    requires AllSpace(s)
    ensures NonSpace(s) == []
    decreases |s|
  {
    if s != [] {
      NonSpaceOfSpaces(s[1..]);
    }
  }

  /** The collapse keeps every non-whitespace character, in order. */
  lemma {:induction false} NonSpaceSqueeze(s: string)
    ensures NonSpace(Squeeze(s)) == NonSpace(s)
    decreases |s|
  {
    if s != [] {
      if IsSpace(s[0]) {
        var t := TrimStart(s[1..]);
        var j := |s| - 1 - |t|;
        NonSpaceSqueeze(t);
        assert ([' '] + Squeeze(t))[1..] == Squeeze(t);
        assert s[1..] == s[1..][..j] + t;
        NonSpaceAppend(s[1..][..j], t);
        NonSpaceOfSpaces(s[1..][..j]);
      } else {
        NonSpaceSqueeze(s[1..]);
        assert ([s[0]] + Squeeze(s[1..]))[1..] == Squeeze(s[1..]);
      }
    }
  }

  /** Stripping keeps every non-whitespace character, in order. */
  lemma NonSpaceStrip(s: string)
    ensures NonSpace(Strip(s)) == NonSpace(s)
  {
    var r := Strip(s);
    var k := SpaceRunEnd(s, 0);
    assert s == s[..k] + r + s[k + |r|..];
    NonSpaceAppend(s[..k] + r, s[k + |r|..]);
    NonSpaceAppend(s[..k], r);
    NonSpaceOfSpaces(s[..k]);
    NonSpaceOfSpaces(s[k + |r|..]);
  }

  /** A word: a non-empty run of non-whitespace characters. */
  predicate IsWord(w: string) {
    w != [] && forall i :: 0 <= i < |w| ==> !IsSpace(w[i])
  }

  /** The length of the run of non-whitespace characters that `s` starts with. */
  function WordLen(s: string): (n: nat)
    ensures n <= |s| && (n == |s| || IsSpace(s[n]))
    ensures forall i :: 0 <= i < n ==> !IsSpace(s[i])
    decreases |s|
  {
    if s == [] || IsSpace(s[0]) then 0 else 1 + WordLen(s[1..])
  }

  /** The words of `s`: its maximal runs of non-whitespace characters, in order. */
  function Words(s: string): (ws: seq<string>)
    ensures forall w :: w in ws ==> IsWord(w)
    decreases |s|
  {
    if s == [] then []
    else if IsSpace(s[0]) then Words(s[1..])
    else [s[..WordLen(s)]] + Words(s[WordLen(s)..])
  }

  /** `" ".join(ws)`. */
  function Unwords(ws: seq<string>): string {
    if ws == [] then "" else Join(ws, " ")
  }

  /** Whitespace in front of a text adds no word. */
  lemma {:induction false} WordsAfterSpaces(sp: string, x: string)
    requires AllSpace(sp)
    ensures Words(sp + x) == Words(x)
    decreases |sp|
  {
    if sp == [] {
      assert sp + x == x;
    } else {
      assert (sp + x)[0] == sp[0] && (sp + x)[1..] == sp[1..] + x;
      WordsAfterSpaces(sp[1..], x);
    }
  }

  /** `y` is empty or starts with whitespace, so a character put in front of it stays apart. */
  predicate StartsApart(y: string) {
    y == [] || IsSpace(y[0])
  }

  /** The words after a non-whitespace character `c` is put in front of a text with words `ws`. */
  function PrependChar(c: char, ws: seq<string>, apart: bool): seq<string> {
    if apart || ws == [] then [[c]] + ws else [[c] + ws[0]] + ws[1..]
  }

  /** A non-whitespace character in front is a word of its own or joins the first word. */
  lemma WordsCons(c: char, y: string)
    requires !IsSpace(c)
    ensures Words([c] + y) == PrependChar(c, Words(y), StartsApart(y))
  {
    var s := [c] + y;
    assert s[0] == c && s[1..] == y;
    var n := WordLen(y);
    assert WordLen(s) == n + 1;
    if StartsApart(y) {
      assert s[..1] == [c];
    } else {
      assert Words(y) == [y[..n]] + Words(y[n..]);
      assert s[..n + 1] == [c] + y[..n] && s[n + 1..] == y[n..];
    }
  }

  /** Texts with the same words that both start apart, or both do not, keep the same words behind one more character. */
  lemma WordsConsSame(c: char, y: string, z: string)
    requires !IsSpace(c)
    requires Words(y) == Words(z) && StartsApart(y) == StartsApart(z)
    ensures Words([c] + y) == Words([c] + z)
  {
    WordsCons(c, y);
    WordsCons(c, z);
  }

  /** Whitespace after a text adds no word. */
  lemma {:induction false} WordsBeforeSpaces(x: string, sp: string)
    requires AllSpace(sp)
    ensures Words(x + sp) == Words(x)
    decreases |x|
  {
    if x == [] {
      assert x + sp == sp + [];
      WordsAfterSpaces(sp, []);
    } else {
      var t := x[1..];
      assert x + sp == [x[0]] + (t + sp) && x == [x[0]] + t;
      WordsBeforeSpaces(t, sp);
      if !IsSpace(x[0]) {
        WordsCons(x[0], t + sp);
        WordsCons(x[0], t);
        assert t != [] ==> (t + sp)[0] == t[0];
      }
    }
  }

  /** The collapse keeps the words. */
  lemma {:induction false} SqueezeWords(s: string)
    ensures Words(Squeeze(s)) == Words(s)
    decreases |s|
  {
    if s != [] {
      if IsSpace(s[0]) {
        SqueezeWords(TrimStart(s[1..]));
        SqueezeWordsSpace(s);
      } else {
        SqueezeWords(s[1..]);
        SqueezeWordsWord(s);
      }
    }
  }

  /** Leading whitespace adds no word. */
  lemma WordsTrimStart(x: string)
    ensures Words(TrimStart(x)) == Words(x)
  {
    var k := SpaceRunEnd(x, 0);
    var t := x[k..];
    forall i | 0 <= i < k ensures IsSpace(x[..k][i]) {
      assert x[..k][i] == x[i];
    }
    assert x == x[..k] + t;
    WordsAfterSpaces(x[..k], t);
  }

  lemma SqueezeWordsSpace(s: string)
    requires s != [] && IsSpace(s[0])
    requires Words(Squeeze(TrimStart(s[1..]))) == Words(TrimStart(s[1..]))
    ensures Words(Squeeze(s)) == Words(s)
  {
    var t := TrimStart(s[1..]);
    assert Words(Squeeze(s)) == Words(Squeeze(t)) by {
      SqueezeSpaceCons(s);
      WordsAfterSpaces([' '], Squeeze(t));
    }
    assert Words(s) == Words(s[1..]);
    WordsTrimStart(s[1..]);
  }

  lemma SqueezeSpaceCons(s: string)
    requires s != [] && IsSpace(s[0])
    ensures Squeeze(s) == [' '] + Squeeze(TrimStart(s[1..]))
  {
  }

  lemma SqueezeWordCons(s: string)
    requires s != [] && !IsSpace(s[0])
    ensures Squeeze(s) == [s[0]] + Squeeze(s[1..])
    ensures StartsApart(Squeeze(s[1..])) == StartsApart(s[1..])
  {
  }

  lemma SqueezeWordsWord(s: string)
    requires s != [] && !IsSpace(s[0])
    requires Words(Squeeze(s[1..])) == Words(s[1..])
    ensures Words(Squeeze(s)) == Words(s)
  {
    var x := s[1..];
    SqueezeWordCons(s);
    assert s == [s[0]] + x;
    WordsConsSame(s[0], Squeeze(x), x);
  }

  /** Stripping keeps the words. */
  lemma StripWords(s: string)
    ensures Words(Strip(s)) == Words(s)
  {
    var r := Strip(s);
    var k := SpaceRunEnd(s, 0);
    var tail := s[k + |r|..];
    assert s == s[..k] + (r + tail);
    WordsAfterSpaces(s[..k], r + tail);
    WordsBeforeSpaces(r, tail);
  }

  /** A text in canonical form is its words joined by single spaces. */
  lemma {:induction false} UnwordsWords(c: string)
    requires Canonical(c)
    ensures Unwords(Words(c)) == c
    decreases |c|
  {
    if c != [] {
      var n := WordLen(c);
      assert Words(c) == [c[..n]] + Words(c[n..]);
      if n < |c| {
        var rest := c[n + 1..];
        assert n + 1 < |c| && c[n] == ' ';
        assert c[n..][0] == c[n] && c[n..][1..] == rest;
        SqueezedSlice(c, n + 1, |c|);
        UnwordsWords(rest);
        var ws := Words(rest);
        assert ws != [];
        assert ([c[..n]] + ws)[1..] == ws;
        assert c == c[..n] + " " + rest;
      } else {
        assert c[..n] == c;
      }
    }
  }

  // ------------------------------------------------------------------ case

  /** `c.lower()` for the capitals of ASCII and Latin-1; every other character is kept. */
  function LowerChar(c: char): char {
    if 'A' <= c <= 'Z' || ('\U{C0}' <= c <= '\U{DE}' && c != '\U{D7}') then (c as int + 32) as char else c
  }

  /** `s.lower()`. */
  function Lower(s: string): string {
    seq(|s|, i requires 0 <= i < |s| => LowerChar(s[i]))
  }

  predicate IsLowerCase(s: string) {
    forall i :: 0 <= i < |s| ==> LowerChar(s[i]) == s[i]
  }

  /** Lower-casing gives a lower-case string, is idempotent, and keeps the canonical whitespace shape. */
  lemma LowerProperties(s: string)
    ensures IsLowerCase(Lower(s)) && Lower(Lower(s)) == Lower(s)
    ensures Canonical(s) ==> Canonical(Lower(s))
  {
  }

  /** Two texts with whitespace at the same places have the same whitespace run ends. */
  lemma {:induction false} SpaceRunEndSame(s: string, t: string, from: nat)
    requires |s| == |t| && from <= |s|
    requires forall i :: 0 <= i < |s| ==> (IsSpace(s[i]) <==> IsSpace(t[i]))
    ensures SpaceRunEnd(s, from) == SpaceRunEnd(t, from)
    decreases |s| - from
  {
    if from < |s| && IsSpace(s[from]) {
      SpaceRunEndSame(s, t, from + 1);
    }
  }

  lemma {:induction false} SpaceRunStartSame(s: string, t: string, stop: nat)
    requires |s| == |t| && stop <= |s|
    requires forall i :: 0 <= i < |s| ==> (IsSpace(s[i]) <==> IsSpace(t[i]))
    ensures SpaceRunStart(s, stop) == SpaceRunStart(t, stop)
    decreases stop
  {
    if 0 < stop && IsSpace(s[stop - 1]) {
      SpaceRunStartSame(s, t, stop - 1);
    }
  }

  /** Lower-casing touches no whitespace, so stripping before or after it gives the same text. */
  lemma StripLower(s: string)
    ensures Strip(Lower(s)) == Lower(Strip(s))
  {
    var t := TrimStart(s);
    TrimStartLower(s);
    TrimEndLower(t);
  }

  lemma TrimStartLower(x: string)
    ensures TrimStart(Lower(x)) == Lower(TrimStart(x))
  {
    SpaceRunEndSame(Lower(x), x, 0);
  }

  lemma TrimEndLower(x: string)
    ensures TrimEnd(Lower(x)) == Lower(TrimEnd(x))
  {
    SpaceRunStartSame(Lower(x), x, |x|);
  }

  /** Lower-casing maps no character into or out of the whitespace set. */
  lemma LowerCharSpace(c: char)
    ensures IsSpace(LowerChar(c)) <==> IsSpace(c)
  {
  }

  lemma LowerAppend(a: string, b: string)
    ensures Lower(a + b) == Lower(a) + Lower(b)
  {
  }

  /** Lower-casing touches no whitespace, so collapsing before or after it gives the same text. */
  lemma {:induction false} SqueezeLower(s: string)
    ensures Squeeze(Lower(s)) == Lower(Squeeze(s))
    decreases |s|
  {
    if s != [] {
      if IsSpace(s[0]) {
        SqueezeLower(TrimStart(s[1..]));
        SqueezeLowerSpace(s);
      } else {
        SqueezeLower(s[1..]);
        SqueezeLowerWord(s);
      }
    }
  }

  lemma LowerSplit(s: string)
    requires s != []
    ensures var l := Lower(s); l != [] && l[0] == LowerChar(s[0]) && l[1..] == Lower(s[1..])
  {
    assert s == [s[0]] + s[1..];
    LowerAppend([s[0]], s[1..]);
  }

  lemma SqueezeLowerSpace(s: string)
    requires s != [] && IsSpace(s[0])
    requires Squeeze(Lower(TrimStart(s[1..]))) == Lower(Squeeze(TrimStart(s[1..])))
    ensures Squeeze(Lower(s)) == Lower(Squeeze(s))
  {
    var t := TrimStart(s[1..]);
    var l := Lower(s);
    LowerSplit(s);
    LowerCharSpace(s[0]);
    TrimStartLower(s[1..]);
    assert l != [] && IsSpace(l[0]) && TrimStart(l[1..]) == Lower(t);
    assert Squeeze(l) == [' '] + Squeeze(Lower(t));
    assert Squeeze(s) == [' '] + Squeeze(t);
    LowerAppend([' '], Squeeze(t));
    assert Lower([' ']) == [' '];
    assert Lower(Squeeze(s)) == [' '] + Lower(Squeeze(t));
  }

  lemma SqueezeLowerWord(s: string)
    requires s != [] && !IsSpace(s[0])
    requires Squeeze(Lower(s[1..])) == Lower(Squeeze(s[1..]))
    ensures Squeeze(Lower(s)) == Lower(Squeeze(s))
  {
    var l := Lower(s);
    LowerSplit(s);
    LowerCharSpace(s[0]);
    assert l != [] && !IsSpace(l[0]);
    assert Squeeze(l) == [l[0]] + Squeeze(l[1..]);
    assert Squeeze(s) == [s[0]] + Squeeze(s[1..]);
    LowerAppend([s[0]], Squeeze(s[1..]));
    assert Lower([s[0]]) == [l[0]];
    assert Lower(Squeeze(s)) == [l[0]] + Lower(Squeeze(s[1..]));
  }

  // ------------------------------------------------------------------ search, split, replace

  /** `pat` starts at index `i` of `s`. */
  predicate OccursAt(s: string, pat: string, i: nat) {
    i + |pat| <= |s| && s[i..i + |pat|] == pat
  }

  /** `s.find(pat, from)`, as an option: the first index at or after `from` where `pat` starts. */
  function FindFrom(s: string, pat: string, from: nat): (r: Option<nat>)
    ensures r.Some? ==> from <= r.value && OccursAt(s, pat, r.value)
    ensures r.Some? ==> forall j: nat :: from <= j < r.value ==> !OccursAt(s, pat, j)
    ensures r.None? ==> forall j: nat :: from <= j ==> !OccursAt(s, pat, j)
    decreases |s| - from
  {
    if from + |pat| > |s| then None
    else if s[from..from + |pat|] == pat then Some(from)
    else FindFrom(s, pat, from + 1)
  }

  function Find(s: string, pat: string): Option<nat> {
    FindFrom(s, pat, 0)
  }

  /** Python's `pat in s`. */
  predicate Contains(s: string, pat: string) {
    Find(s, pat).Some?
  }

  lemma ContainsWhenOccurs(s: string, pat: string, i: nat)
    requires OccursAt(s, pat, i)
    ensures Contains(s, pat)
  {
  }

  /** A one-character pattern occurs exactly when the character is in the string. */
  lemma ContainsChar(s: string, c: char)
    ensures Contains(s, [c]) <==> c in s
  {
    if Contains(s, [c]) {
      var i := Find(s, [c]).value;
      assert s[i] == s[i..i + 1][0] == c;
    }
    if c in s {
      var i :| 0 <= i < |s| && s[i] == c;
      assert s[i..i + 1] == [c];
      ContainsWhenOccurs(s, [c], i);
    }
  }

  /** A string that contains a pattern contains the pattern's first character. */
  lemma ContainsHead(s: string, pat: string)
    requires |pat| > 0
    ensures Contains(s, pat) ==> pat[0] in s
  {
    if Contains(s, pat) {
      var i := Find(s, pat).value;
      assert s[i] == s[i..i + |pat|][0];
    }
  }

  /** `s.split(sep)` for a non-empty separator: the pieces between the occurrences of `sep`. */
  function SplitOn(s: string, sep: string): (parts: seq<string>)
    requires |sep| > 0
    ensures |parts| >= 1
    ensures Contains(s, sep) ==> |parts| >= 2
    decreases |s|
  {
    match Find(s, sep)
    case None => [s]
    case Some(i) => [s[..i]] + SplitOn(s[i + |sep|..], sep)
  }

  /** `sep.join(parts)`. */
  function Join(parts: seq<string>, sep: string): string
    requires |parts| >= 1
    decreases |parts|
  {
    if |parts| == 1 then parts[0] else parts[0] + sep + Join(parts[1..], sep)
  }

  /** A join is at least as long as its first piece. */
  lemma JoinLength(parts: seq<string>, sep: string)
    requires |parts| >= 1
    ensures |Join(parts, sep)| >= |parts[0]|
  {
  }

  /** A join of at least two pieces starts with the first two pieces and the separator between them. */
  lemma JoinHead(parts: seq<string>, sep: string)
    requires |parts| >= 2
    ensures var head := parts[0] + sep + parts[1];
      |head| <= |Join(parts, sep)| && Join(parts, sep)[..|head|] == head
      && (|parts| == 2 ==> Join(parts, sep) == head)
  {
    var head := parts[0] + sep + parts[1];
    var rest := Join(parts[1..], sep);
    assert parts[1..][0] == parts[1];
    if |parts| == 2 {
      assert rest == parts[1];
    } else {
      assert parts[1..][1..] == parts[2..];
      var tail := sep + Join(parts[2..], sep);
      assert rest == parts[1] + tail;
      assert Join(parts, sep) == head + tail;
    }
  }

  /** Joining the pieces of a split with the same separator gives the original string back. */
  lemma {:induction false} JoinSplit(s: string, sep: string)
    requires |sep| > 0
    ensures Join(SplitOn(s, sep), sep) == s
    decreases |s|
  {
    match Find(s, sep)
    case None =>
    case Some(i) =>
      var rest := s[i + |sep|..];
      var parts := SplitOn(s, sep);
      assert parts == [s[..i]] + SplitOn(rest, sep);
      assert parts[0] == s[..i] && parts[1..] == SplitOn(rest, sep);
      assert Join(parts, sep) == s[..i] + sep + Join(SplitOn(rest, sep), sep);
      JoinSplit(rest, sep);
      assert OccursAt(s, sep, i);
      assert s == s[..i] + sep + rest;
  }

  /** No piece of a split contains the separator. */
  lemma {:induction false} SplitPiecesFree(s: string, sep: string)
    requires |sep| > 0
    ensures forall p :: p in SplitOn(s, sep) ==> !Contains(p, sep)
    decreases |s|
  {
    match Find(s, sep)
    case None =>
    case Some(i) =>
      SplitPiecesFree(s[i + |sep|..], sep);
      var head := s[..i];
      forall j: nat
        ensures !OccursAt(head, sep, j)
      {
        if j + |sep| <= i {
          assert !OccursAt(s, sep, j);
          assert head[j..j + |sep|] == s[j..j + |sep|];
        }
      }
      assert !Contains(head, sep);
      assert SplitOn(s, sep) == [head] + SplitOn(s[i + |sep|..], sep);
  }

  /** Once `pat` occurs in `a`, appending more text after `a` does not move its first occurrence. */
  lemma FindStable(a: string, pat: string, s: string)
    requires Contains(a, pat)
    ensures Find(a + s, pat) == Find(a, pat)
  {
    var j := Find(a, pat).value;
    var x := a + s;
    assert x[j..j + |pat|] == a[j..j + |pat|];
    assert OccursAt(x, pat, j);
    var f := Find(x, pat);
    assert f.Some?;
    assert f.value <= j;
    assert x[f.value..f.value + |pat|] == a[f.value..f.value + |pat|];
    assert OccursAt(a, pat, f.value);
  }

  /** The second piece is the first piece of what follows the first separator. */
  lemma SplitSecond(s: string, sep: string)
    requires |sep| > 0 && Contains(s, sep)
    ensures |SplitOn(s, sep)[0]| + |sep| <= |s|
    ensures SplitOn(s, sep)[1] == SplitOn(s[|SplitOn(s, sep)[0]| + |sep|..], sep)[0]
  {
    var i := Find(s, sep).value;
    assert OccursAt(s, sep, i);
    var rest := SplitOn(s[i + |sep|..], sep);
    assert SplitOn(s, sep) == [s[..i]] + rest;
    assert |SplitOn(s, sep)[0]| == i;
    assert SplitOn(s, sep)[1] == rest[0];
  }

  /** Once `sep` occurs in `a`, the first piece of a split does not depend on what follows `a`. */
  lemma SplitHeadStable(a: string, sep: string, s: string)
    requires |sep| > 0 && Contains(a, sep)
    ensures Contains(a + s, sep)
    ensures SplitOn(a + s, sep)[0] == SplitOn(a, sep)[0]
  {
    FindStable(a, sep, s);
    var j := Find(a, sep).value;
    assert (a + s)[..j] == a[..j];
  }

  /** Every character of a piece of a split comes from the split string. */
  lemma {:induction false} SplitPiecesChars(s: string, sep: string)
    requires |sep| > 0
    ensures forall p, c :: p in SplitOn(s, sep) && c in p ==> c in s
    decreases |s|
  {
    match Find(s, sep)
    case None =>
    case Some(i) =>
      SplitPiecesChars(s[i + |sep|..], sep);
      forall p, c | p in SplitOn(s, sep) && c in p
        ensures c in s
      {
        if p == s[..i] {
          var m :| 0 <= m < |p| && p[m] == c;
          assert s[m] == c;
        } else {
          assert p in SplitOn(s[i + |sep|..], sep);
          var m :| 0 <= m < |s[i + |sep|..]| && s[i + |sep|..][m] == c;
          assert s[i + |sep| + m] == c;
        }
      }
  }

  /** When no occurrence of `sep` starts inside `k`, splitting `k + sep + rest` yields `k` first. */
  lemma SplitAfterPrefix(k: string, sep: string, rest: string)
    requires |sep| > 0 && !Contains(k + sep[..|sep| - 1], sep)
    ensures Find(k + sep + rest, sep) == Some(|k|)
    ensures SplitOn(k + sep + rest, sep) == [k] + SplitOn(rest, sep)
  {
    var s := k + sep + rest;
    var u := k + sep[..|sep| - 1];
    assert s[|k|..|k| + |sep|] == sep;
    assert OccursAt(s, sep, |k|);
    forall j: nat | j < |k|
      ensures !OccursAt(s, sep, j)
    {
      if OccursAt(s, sep, j) {
        assert j + |sep| <= |u|;
        assert u == s[..|k| + |sep| - 1];
        assert u[j..j + |sep|] == s[j..j + |sep|];
        assert OccursAt(u, sep, j);
        assert false;
      }
    }
    assert s[..|k|] == k && s[|k| + |sep|..] == rest;
  }

  /** Splitting a join gives the pieces back when no separator starts inside a piece. */
  lemma {:induction false} SplitJoin(parts: seq<string>, sep: string)
    requires |sep| > 0 && |parts| >= 1
    requires forall i :: 0 <= i < |parts| - 1 ==> !Contains(parts[i] + sep[..|sep| - 1], sep)
    requires !Contains(parts[|parts| - 1], sep)
    ensures SplitOn(Join(parts, sep), sep) == parts
    decreases |parts|
  {
    if |parts| > 1 {
      SplitAfterPrefix(parts[0], sep, Join(parts[1..], sep));
      SplitJoin(parts[1..], sep);
    }
  }

  /** `s.replace(pat, repl)` for a non-empty `pat`: occurrences replaced left to right, without overlap. */
  function ReplaceAll(s: string, pat: string, repl: string): string
    requires |pat| > 0
    decreases |s|
  {
    if |s| < |pat| then s
    else if s[..|pat|] == pat then repl + ReplaceAll(s[|pat|..], pat, repl)
    else [s[0]] + ReplaceAll(s[1..], pat, repl)
  }

  /** Searching from `k + 1` in `s` is searching from `k` in `s` without its first character. */
  lemma {:induction false} FindFromShift(s: string, pat: string, k: nat)
    requires |pat| > 0 && s != []
    ensures var r := FindFrom(s[1..], pat, k);
      FindFrom(s, pat, k + 1) == if r.Some? then Some(r.value + 1) else None
    decreases |s| - k
  {
    if k + 1 + |pat| <= |s| {
      assert s[k + 1..k + 1 + |pat|] == s[1..][k..k + |pat|];
      if s[k + 1..k + 1 + |pat|] != pat {
        FindFromShift(s, pat, k + 1);
      }
    }
  }

  /** When no separator starts at index 0, the first character belongs to the first piece. */
  lemma SplitOnSkip(s: string, sep: string)
    requires |sep| > 0 && s != [] && !OccursAt(s, sep, 0)
    ensures var t := SplitOn(s[1..], sep); SplitOn(s, sep) == [[s[0]] + t[0]] + t[1..]
  {
    FindFromShift(s, sep, 0);
    assert Find(s, sep) == FindFrom(s, sep, 1);
    if Find(s[1..], sep).None? {
      SplitOnSkipNone(s, sep);
    } else {
      SplitOnSkipAt(s, sep, Find(s[1..], sep).value);
    }
  }
  /** `SplitOnSkip` when the rest holds no separator. */
  lemma SplitOnSkipNone(s: string, sep: string)
    requires |sep| > 0 && s != [] && Find(s[1..], sep).None? && Find(s, sep).None?
    ensures var t := SplitOn(s[1..], sep); SplitOn(s, sep) == [[s[0]] + t[0]] + t[1..]
  {
    var u := s[1..];
    SplitOnNone(u, sep);
    SplitOnNone(s, sep);
    assert s == [s[0]] + u;
    ConsHead(SplitOn(s, sep), s, [], SplitOn(u, sep), u, s[0]);
  }
  /** `SplitOnSkip` when the first separator of the rest starts at `i`. */
  lemma SplitOnSkipAt(s: string, sep: string, i: nat)
    requires |sep| > 0 && s != [] && Find(s[1..], sep) == Some(i) && Find(s, sep) == Some(i + 1)
    ensures var t := SplitOn(s[1..], sep); SplitOn(s, sep) == [[s[0]] + t[0]] + t[1..]
  {
    var u := s[1..];
    var tail := s[i + 1 + |sep|..];
    assert SplitOn(s, sep) == [s[..i + 1]] + SplitOn(tail, sep) by { SplitOnAt(s, sep, i + 1); }
    assert SplitOn(u, sep) == [u[..i]] + SplitOn(tail, sep) by {
      SplitOnAt(u, sep, i);
      assert tail == u[i + |sep|..] by { SliceShift(s, i + |sep|); }
    }
    assert s[..i + 1] == [s[0]] + u[..i] by { PrefixShift(s, i); }
    ConsHead(SplitOn(s, sep), s[..i + 1], SplitOn(tail, sep), SplitOn(u, sep), u[..i], s[0]);
  }
  lemma SplitOnNone(s: string, sep: string)
    requires |sep| > 0 && Find(s, sep).None?
    ensures SplitOn(s, sep) == [s]
  {
  }

  lemma SplitOnAt(s: string, sep: string, i: nat)
    requires |sep| > 0 && Find(s, sep) == Some(i)
    ensures i + |sep| <= |s| && SplitOn(s, sep) == [s[..i]] + SplitOn(s[i + |sep|..], sep)
  {
  }

  lemma SliceShift<T>(s: seq<T>, k: nat)
    requires s != [] && k < |s|
    ensures s[k + 1..] == s[1..][k..]
  {
  }

  lemma PrefixShift<T>(s: seq<T>, k: nat)
    requires k < |s|
    ensures s[..k + 1] == [s[0]] + s[1..][..k]
  {
  }

  lemma ConsHead<T>(whole: seq<seq<T>>, head: seq<T>, rest: seq<seq<T>>, t: seq<seq<T>>, x: seq<T>, c: T)
    requires whole == [head] + rest && t == [x] + rest && head == [c] + x
    ensures whole == [[c] + t[0]] + t[1..]
  {
    assert t[0] == x && t[1..] == rest;
  }

  /** A character in front of the first piece comes out in front of the join. */
  lemma JoinConsChar(c: char, parts: seq<string>, sep: string)
    requires |parts| >= 1
    ensures Join([[c] + parts[0]] + parts[1..], sep) == [c] + Join(parts, sep)
  {
    var q := [[c] + parts[0]] + parts[1..];
    assert q[0] == [c] + parts[0] && q[1..] == parts[1..];
  }

  /** An empty first piece leaves just the separator in front of the join of the rest. */
  lemma JoinConsEmpty(rest: seq<string>, sep: string)
    requires |rest| >= 1
    ensures Join([""] + rest, sep) == sep + Join(rest, sep)
  {
    var q := [""] + rest;
    assert q[0] == "" && q[1..] == rest;
  }

  /** `s.replace(pat, repl) == repl.join(s.split(pat))`: every occurrence becomes `repl`, the text between them stays. */
  lemma {:induction false} ReplaceAllSplitJoin(s: string, pat: string, repl: string)
    requires |pat| > 0
    ensures ReplaceAll(s, pat, repl) == Join(SplitOn(s, pat), repl)
    decreases |s|
  {
    if |s| < |pat| {
      assert Find(s, pat).None?;
    } else if s[..|pat|] == pat {
      assert Find(s, pat) == Some(0);
      var rest := SplitOn(s[|pat|..], pat);
      assert SplitOn(s, pat) == [s[..0]] + rest;
      assert s[..0] == "";
      ReplaceAllSplitJoin(s[|pat|..], pat, repl);
      JoinConsEmpty(rest, repl);
    } else {
      assert !OccursAt(s, pat, 0);
      ReplaceAllSplitJoin(s[1..], pat, repl);
      SplitOnSkip(s, pat);
      JoinConsChar(s[0], SplitOn(s[1..], pat), repl);
    }
  }

  /** `[p.strip() for p in parts if p.strip()]`. */
  function NonBlankStripped(parts: seq<string>): (r: seq<string>)
    ensures |r| <= |parts|
    ensures forall q :: q in r ==> q != [] && Trimmed(q)
    ensures r == [] <==> forall p :: p in parts ==> AllSpace(p)
    decreases |parts|
  {
    if parts == [] then []
    else (if Strip(parts[0]) == [] then [] else [Strip(parts[0])]) + NonBlankStripped(parts[1..])
  }

  /** Filtering two blocks of pieces gives the filtered first block followed by the filtered second. */
  lemma {:induction false} NonBlankStrippedAppend(a: seq<string>, b: seq<string>)
    ensures NonBlankStripped(a + b) == NonBlankStripped(a) + NonBlankStripped(b)
    decreases |a|
  {
    if a == [] {
      assert a + b == b;
    } else {
      assert (a + b)[0] == a[0] && (a + b)[1..] == a[1..] + b;
      NonBlankStrippedAppend(a[1..], b);
      var h := if Strip(a[0]) == [] then [] else [Strip(a[0])];
      AppendAssoc(h, NonBlankStripped(a[1..]), NonBlankStripped(b));
    }
  }

  lemma AppendAssoc<T>(h: seq<T>, x: seq<T>, y: seq<T>)
    ensures h + (x + y) == (h + x) + y
  {
  }

  /** A single piece gives its stripped text, or nothing when it is blank. */
  lemma NonBlankStrippedOne(p: string)
    ensures NonBlankStripped([p]) == if AllSpace(p) then [] else [Strip(p)]
  {
    assert [p][1..] == [];
  }

  /** Every kept text is the stripped form of one of the pieces. */
  lemma {:induction false} NonBlankStrippedFrom(parts: seq<string>)
    ensures forall q :: q in NonBlankStripped(parts) ==> exists p :: p in parts && q == Strip(p)
    decreases |parts|
  {
    if parts != [] {
      var rest := NonBlankStripped(parts[1..]);
      var h := if Strip(parts[0]) == [] then [] else [Strip(parts[0])];
      assert NonBlankStripped(parts) == h + rest;
      NonBlankStrippedFrom(parts[1..]);
      forall q | q in h + rest
        ensures exists p :: p in parts && q == Strip(p)
      {
        if q in rest {
          var p :| p in parts[1..] && q == Strip(p);
          assert p in parts;
        } else {
          assert parts[0] in parts;
        }
      }
    }
  }

  /** Pieces that are already non-empty and trimmed are all kept, unchanged and in order. */
  lemma {:induction false} NonBlankStrippedKeeps(parts: seq<string>)
    requires forall q :: q in parts ==> q != [] && Trimmed(q)
    ensures NonBlankStripped(parts) == parts
    decreases |parts|
  {
    if parts != [] {
      var p, rest := parts[0], parts[1..];
      assert p in parts;
      StripFixed(p);
      assert Strip(p) == p != [];
      assert NonBlankStripped(parts) == [p] + NonBlankStripped(rest);
      assert forall q :: q in rest ==> q in parts;
      NonBlankStrippedKeeps(rest);
      assert parts == [p] + rest;
    }
  }

  lemma StripKeepsAbsent(p: string, c: char)
    requires !Contains(p, [c])
    ensures c !in Strip(p)
  {
    var r := Strip(p);
    var k := SpaceRunEnd(p, 0);
    if c in r {
      var m :| 0 <= m < |r| && r[m] == c;
      assert p[k + m..k + m + 1] == [c];
      ContainsWhenOccurs(p, [c], k + m);
    }
  }

  /** `[x.strip() for x in s.split(",") if x.strip()]`: the non-blank items of a comma-separated list. */
  function CommaList(s: string): (items: seq<string>)
    ensures forall q :: q in items ==> q != [] && Trimmed(q) && ',' !in q
    ensures items == [] <==> forall p :: p in SplitOn(s, ",") ==> AllSpace(p)
  {
    var parts := SplitOn(s, ",");
    SplitPiecesFree(s, ",");
    NonBlankStrippedFrom(parts);
    forall p | p in parts
      ensures ',' !in Strip(p)
    {
      StripKeepsAbsent(p, ',');
    }
    NonBlankStripped(parts)
  }

  /** Splitting at a one-character separator undoes joining pieces free of that character. */
  lemma SplitJoinChar(parts: seq<string>, c: char)
    requires |parts| >= 1 && forall q :: q in parts ==> c !in q
    ensures SplitOn(Join(parts, [c]), [c]) == parts
  {
    var sep := [c];
    forall i | 0 <= i < |parts|
      ensures !Contains(parts[i] + sep[..0], sep)
    {
      assert parts[i] in parts;
      assert parts[i] + sep[..0] == parts[i];
      ContainsChar(parts[i], c);
    }
    assert parts[|parts| - 1] + sep[..0] == parts[|parts| - 1];
    SplitJoin(parts, sep);
  }

  /** Non-empty, trimmed, comma-free items come back unchanged from the list that joins them with commas. */
  lemma CommaListJoin(items: seq<string>)
    requires |items| >= 1
    requires forall q :: q in items ==> q != [] && Trimmed(q) && ',' !in q
    ensures CommaList(Join(items, ",")) == items
  {
    SplitJoinChar(items, ',');
    NonBlankStrippedKeeps(items);
  }

  // ------------------------------------------------------------------ order

  /** Python's `a <= b` on strings: lexicographic by code point, a proper prefix first. */
  predicate StrLe(a: string, b: string)
    decreases |a|
  {
    a == [] || (b != [] && (a[0] < b[0] || (a[0] == b[0] && StrLe(a[1..], b[1..]))))
  }

  lemma {:induction false} StrLeRefl(a: string)
    ensures StrLe(a, a)
    decreases |a|
  {
    if a != [] {
      StrLeRefl(a[1..]);
    }
  }

  lemma {:induction false} StrLeTotal(a: string, b: string)
    ensures StrLe(a, b) || StrLe(b, a)
    decreases |a|
  {
    if a != [] && b != [] && a[0] == b[0] {
      StrLeTotal(a[1..], b[1..]);
    }
  }

  lemma {:induction false} StrLeAntisym(a: string, b: string)
    requires StrLe(a, b) && StrLe(b, a)
    ensures a == b
    decreases |a|
  {
    if a != [] {
      StrLeAntisym(a[1..], b[1..]);
      assert a == [a[0]] + a[1..] && b == [b[0]] + b[1..];
    }
  }

  lemma {:induction false} StrLeTrans(a: string, b: string, c: string)
    requires StrLe(a, b) && StrLe(b, c)
    ensures StrLe(a, c)
    decreases |a|
  {
    if a != [] && a[0] == b[0] && b[0] == c[0] {
      StrLeTrans(a[1..], b[1..], c[1..]);
    }
  }

  lemma BoundBelow(x: string, y: string, ts: seq<string>)
    requires StrLe(x, y) && forall t :: t in ts ==> StrLe(y, t)
    ensures forall t :: t in ts ==> StrLe(x, t)
  {
    forall t | t in ts
      ensures StrLe(x, t)
    {
      StrLeTrans(x, y, t);
    }
  }

  lemma BoundAbove(x: string, y: string, ts: seq<string>)
    requires StrLe(y, x) && forall t :: t in ts ==> StrLe(t, y)
    ensures forall t :: t in ts ==> StrLe(t, x)
  {
    forall t | t in ts
      ensures StrLe(t, x)
    {
      StrLeTrans(t, y, x);
    }
  }

  /** The first element of `sorted(ts)`: an element of `ts` that is below every element. */
  function MinStr(ts: seq<string>): (m: string)
    requires |ts| > 0
    ensures m in ts && forall t :: t in ts ==> StrLe(m, t)
    decreases |ts|
  {
    StrLeRefl(ts[0]);
    if |ts| == 1 then ts[0]
    else
      var rest := MinStr(ts[1..]);
      StrLeTotal(ts[0], rest);
      if StrLe(ts[0], rest) then
        BoundBelow(ts[0], rest, ts[1..]);
        ts[0]
      else
        rest
  }

  /** The last element of `sorted(ts)`: an element of `ts` that is above every element. */
  function MaxStr(ts: seq<string>): (m: string)
    requires |ts| > 0
    ensures m in ts && forall t :: t in ts ==> StrLe(t, m)
    decreases |ts|
  {
    StrLeRefl(ts[0]);
    if |ts| == 1 then ts[0]
    else
      var rest := MaxStr(ts[1..]);
      StrLeTotal(ts[0], rest);
      if StrLe(rest, ts[0]) then
        BoundAbove(ts[0], rest, ts[1..]);
        ts[0]
      else
        rest
  }

  // ------------------------------------------------------------------ numbers

  function DigitChar(d: nat): char
    requires d < 10
  {
    ('0' as int + d) as char
  }

  /** `str(n)` for a natural number. */
  function NatToString(n: nat): (s: string)
    ensures |s| > 0 && forall i :: 0 <= i < |s| ==> '0' <= s[i] <= '9'
    ensures s[0] == '0' ==> n == 0
  {
    if n < 10 then [DigitChar(n)] else NatToString(n / 10) + [DigitChar(n % 10)]
  }

  /** The value of a string of decimal digits, as `int(s)` reads it. */
  function DigitsValue(s: string): nat
    requires forall i :: 0 <= i < |s| ==> '0' <= s[i] <= '9'
    decreases |s|
  {
    if s == [] then 0 else DigitsValue(s[..|s| - 1]) * 10 + (s[|s| - 1] as int - '0' as int)
  }

  /** Reading back the decimal rendering of `n` gives `n`. */
  lemma {:induction false} NatToStringRoundTrip(n: nat)
    ensures DigitsValue(NatToString(n)) == n
  {
    if n >= 10 {
      NatToStringRoundTrip(n / 10);
      var s := NatToString(n);
      assert s[..|s| - 1] == NatToString(n / 10);
    }
  }
}
