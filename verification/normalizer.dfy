/** The Arabic name normaliser, `normalizeArabicName`: nine global rewrites
    applied in a fixed order. The first seven look at one character at a time;
    the last two collapse and trim whitespace. The ingestion script carries its
    own copy with the same regular expressions in the same order, so this one
    module serves both the index and the query side. */
module Normalizer {
  import opened Text

  const Hamza: char := '\U{0621}'
  const Alif: char := '\U{0627}'
  const TaMarbuta: char := '\U{0629}'
  const Tatweel: char := '\U{0640}'
  const Ha: char := '\U{0647}'
  const AlifMaqsura: char := '\U{0649}'
  const Ya: char := '\U{064A}'

  /** Fathatan through the end of the combining-mark block, U+064B..U+065F. */
  predicate IsDiacritic(c: char) {
    '\U{064B}' <= c <= '\U{065F}'
  }

  /** Alif with hamza above, alif with hamza below, alif with madda. */
  predicate IsAlifVariant(c: char) {
    c == '\U{0623}' || c == '\U{0625}' || c == '\U{0622}'
  }

  /** Waw with hamza, ya with hamza, and the bare hamza itself. */
  predicate IsHamzaVariant(c: char) {
    c == '\U{0624}' || c == '\U{0626}' || c == Hamza
  }

  /** The character class kept by the seventh rewrite: U+0621..U+063A,
      U+0640..U+0652 and U+0020. */
  predicate IsKept(c: char) {
    ('\U{0621}' <= c <= '\U{063A}') || ('\U{0640}' <= c <= '\U{0652}') || c == ' '
  }

  /** A letter that can appear in normalised text: hamza through ghain and feh
      through ya, without the variants the pipeline folds away. */
  predicate IsCanonLetter(c: char) {
    && (('\U{0621}' <= c <= '\U{063A}') || ('\U{0641}' <= c <= '\U{064A}'))
    && !IsAlifVariant(c) && c != '\U{0624}' && c != '\U{0626}'
    && c != TaMarbuta && c != AlifMaqsura
  }

  predicate InAlphabet(c: char) {
    IsCanonLetter(c) || c == ' '
  }

  /** The shape of every normalised text: canonical letters and single
      U+0020 spaces between words, nothing at either end. */
  predicate Canonical(s: string) {
    Every(s, InAlphabet) && SingleSpaced(s)
  }

  // The seven one-character rewrites, in pipeline order.

  function DropDiacritic(c: char): seq<char> {
    if IsDiacritic(c) then [] else [c]
  }

  function DropTatweel(c: char): seq<char> {
    if c == Tatweel then [] else [c]
  }

  function FoldAlif(c: char): seq<char> {
    if IsAlifVariant(c) then [Alif] else [c]
  }

  function FoldHamza(c: char): seq<char> {
    if IsHamzaVariant(c) then [Hamza] else [c]
  }

  function FoldTaMarbuta(c: char): seq<char> {
    if c == TaMarbuta then [Ha] else [c]
  }

  function FoldAlifMaqsura(c: char): seq<char> {
    if c == AlifMaqsura then [Ya] else [c]
  }

  function KeepArabic(c: char): seq<char> {
    if IsKept(c) then [c] else []
  }

  /** The first seven rewrites, nested in the order `normalizeArabicName` chains them. */
  function LetterPass(s: string): string {
    Rewrite(KeepArabic,
      Rewrite(FoldAlifMaqsura,
        Rewrite(FoldTaMarbuta,
          Rewrite(FoldHamza,
            Rewrite(FoldAlif,
              Rewrite(DropTatweel,
                Rewrite(DropDiacritic, s)))))))
  }

  /** `normalizeArabicName(s)`. */
  function Normalize(s: string): (r: string)
    ensures Canonical(r)
  {
    LetterPassIsSinglePass(s);
    SinglePassAlphabet(s);
    var r := Trim(CollapseSpaces(LetterPass(s)));
    TrimCollapsedIsCanonical(LetterPass(s));
    r
  }

  /** What canonical text excludes, spelled out rule by rule: no diacritic,
      no tatweel, no alif, waw or ya carrying hamza, no ta marbuta, no alif
      maqsura, nothing outside the kept Arabic ranges but U+0020. */
  lemma NormalizedCharacters(s: string)
    ensures forall c :: c in Normalize(s) ==> !Excluded(c)
  {
    var r := Normalize(s);
    forall c | c in r
      ensures !Excluded(c)
    {
      var i :| 0 <= i < |r| && r[i] == c;
      AlphabetExcludes(c);
    }
  }

  /** A character one of the first seven rewrites would remove or replace,
      or one outside the two Arabic ranges and U+0020. */
  predicate Excluded(c: char) {
    || IsDiacritic(c) || c == Tatweel || IsAlifVariant(c)
    || c == '\U{0624}' || c == '\U{0626}' || c == TaMarbuta || c == AlifMaqsura
    || !(('\U{0621}' <= c <= '\U{063A}') || ('\U{0641}' <= c <= '\U{064A}') || c == ' ')
  }

  lemma AlphabetExcludes(c: char)
    requires InAlphabet(c)
    ensures !Excluded(c)
  {
  }

  /** The same seven rewrites fused into one lookup per character, as a single
      pass over the input would apply them. */
  function CanonChar(c: char): (r: seq<char>)
    ensures |r| <= 1
    ensures forall i :: 0 <= i < |r| ==> InAlphabet(r[i])
    ensures InAlphabet(c) ==> r == [c]
  {
    if IsDiacritic(c) || c == Tatweel then []
    else if IsAlifVariant(c) then [Alif]
    else if IsHamzaVariant(c) then [Hamza]
    else if c == TaMarbuta then [Ha]
    else if c == AlifMaqsura then [Ya]
    else if IsKept(c) then [c]
    else []
  }

  lemma RewriteSingle(rule: char -> seq<char>, c: char)
    ensures Rewrite(rule, [c]) == rule(c)
  {
    assert [c][1..] == [];
  }

  /** Each rewrite maps one character to at most one character. */
  lemma RewriteOfAtMostOne(rule: char -> seq<char>, u: seq<char>)
    requires |u| <= 1
    ensures |u| == 0 ==> Rewrite(rule, u) == []
    ensures |u| == 1 ==> Rewrite(rule, u) == rule(u[0])
  {
    if |u| == 1 {
      assert u == [u[0]];
      RewriteSingle(rule, u[0]);
    }
  }

  /** On one character, the chained rewrites agree with the fused lookup. */
  lemma LetterPassOfChar(c: char)
    ensures LetterPass([c]) == CanonChar(c)
  {
    var u1 := Rewrite(DropDiacritic, [c]);
    RewriteSingle(DropDiacritic, c);
    var u2 := Rewrite(DropTatweel, u1);
    RewriteOfAtMostOne(DropTatweel, u1);
    var u3 := Rewrite(FoldAlif, u2);
    RewriteOfAtMostOne(FoldAlif, u2);
    var u4 := Rewrite(FoldHamza, u3);
    RewriteOfAtMostOne(FoldHamza, u3);
    var u5 := Rewrite(FoldTaMarbuta, u4);
    RewriteOfAtMostOne(FoldTaMarbuta, u4);
    var u6 := Rewrite(FoldAlifMaqsura, u5);
    RewriteOfAtMostOne(FoldAlifMaqsura, u5);
    var u7 := Rewrite(KeepArabic, u6);
    RewriteOfAtMostOne(KeepArabic, u6);
  }

  /** The chained rewrites work character by character. */
  lemma LetterPassAppend(a: string, b: string)
    ensures LetterPass(a + b) == LetterPass(a) + LetterPass(b)
  {
    var x1 := Rewrite(DropDiacritic, a);
    var y1 := Rewrite(DropDiacritic, b);
    RewriteAppend(DropDiacritic, a, b);
    RewriteAppend(DropTatweel, x1, y1);
    var x2 := Rewrite(DropTatweel, x1);
    var y2 := Rewrite(DropTatweel, y1);
    RewriteAppend(FoldAlif, x2, y2);
    var x3 := Rewrite(FoldAlif, x2);
    var y3 := Rewrite(FoldAlif, y2);
    RewriteAppend(FoldHamza, x3, y3);
    var x4 := Rewrite(FoldHamza, x3);
    var y4 := Rewrite(FoldHamza, y3);
    RewriteAppend(FoldTaMarbuta, x4, y4);
    var x5 := Rewrite(FoldTaMarbuta, x4);
    var y5 := Rewrite(FoldTaMarbuta, y4);
    RewriteAppend(FoldAlifMaqsura, x5, y5);
    var x6 := Rewrite(FoldAlifMaqsura, x5);
    var y6 := Rewrite(FoldAlifMaqsura, y5);
    RewriteAppend(KeepArabic, x6, y6);
  }

  /** The seven chained regular-expression passes equal one pass of
      the fused per-character table. */
  lemma {:induction false} LetterPassIsSinglePass(s: string)
    ensures LetterPass(s) == Rewrite(CanonChar, s)
    decreases |s|
  {
    if s != [] {
      assert s == [s[0]] + s[1..];
      LetterPassAppend([s[0]], s[1..]);
      LetterPassOfChar(s[0]);
      LetterPassIsSinglePass(s[1..]);
    }
  }

  /** The single pass emits only alphabet characters. */
  lemma {:induction false} SinglePassAlphabet(s: string)
    ensures forall i :: 0 <= i < |Rewrite(CanonChar, s)| ==> InAlphabet(Rewrite(CanonChar, s)[i])
    decreases |s|
  {
    if s != [] {
      SinglePassAlphabet(s[1..]);
      var head := CanonChar(s[0]);
      var tail := Rewrite(CanonChar, s[1..]);
      assert Rewrite(CanonChar, s) == head + tail;
      forall i | 0 <= i < |head + tail|
        ensures InAlphabet((head + tail)[i])
      {
        if i >= |head| {
          assert (head + tail)[i] == tail[i - |head|];
        }
      }
    }
  }

  /** Collapsing, then trimming, text over the alphabet yields canonical text. */
  lemma TrimCollapsedIsCanonical(u: string)
    requires Every(u, InAlphabet)
    ensures Canonical(Trim(CollapseSpaces(u)))
  {
    var v := CollapseSpaces(u);
    CollapseSpacesShape(u);
    CollapseKeeps(u, InAlphabet);
    assert Every(v, InAlphabet);
    TrimSingleSpaced(v);
    TrimKeeps(v, InAlphabet);
  }

  /** The fused table leaves text over the alphabet unchanged. */
  lemma {:induction false} SinglePassFixesAlphabet(s: string)
    requires forall i :: 0 <= i < |s| ==> InAlphabet(s[i])
    ensures Rewrite(CanonChar, s) == s
    decreases |s|
  {
    if s != [] {
      assert InAlphabet(s[0]);
      SinglePassFixesAlphabet(s[1..]);
    }
  }

  /** An independent definition of the normaliser: the words of the
      single-pass text, joined with single spaces. */
  lemma NormalizeIsJoinedWords(s: string)
    ensures Normalize(s) == Join(Words(Rewrite(CanonChar, s)), " ")
  {
    var u := LetterPass(s);
    var r := Normalize(s);
    LetterPassIsSinglePass(s);
    WordsCollapse(u);
    WordsTrim(CollapseSpaces(u));
    JoinWords(r);
  }

  /** Without a kept Arabic character the single pass leaves only U+0020. */
  lemma {:induction false} SinglePassBlank(s: string)
    requires forall i :: 0 <= i < |s| ==> !IsKept(s[i]) || s[i] == ' '
    ensures forall i :: 0 <= i < |Rewrite(CanonChar, s)| ==> Rewrite(CanonChar, s)[i] == ' '
    decreases |s|
  {
    if s != [] {
      assert forall i :: 0 <= i < |s| - 1 ==> s[1..][i] == s[i + 1];
      SinglePassBlank(s[1..]);
      var head := CanonChar(s[0]);
      var tail := Rewrite(CanonChar, s[1..]);
      assert head == [] || head == [' '];
      assert forall i :: |head| <= i < |head + tail| ==> (head + tail)[i] == tail[i - |head|];
    }
  }

  /** A text with no Arabic letter in the kept ranges (Latin, digits,
      punctuation, whitespace) normalises to the empty string. */
  lemma NoArabicNormalizesEmpty(s: string)
    requires forall i :: 0 <= i < |s| ==> !IsKept(s[i]) || s[i] == ' '
    ensures Normalize(s) == []
  {
    NormalizeIsJoinedWords(s);
    SinglePassBlank(s);
    WordsOfBlank(Rewrite(CanonChar, s));
  }

  /** Normalised text is a fixed point of the normaliser. */
  lemma NormalizeFixesCanonical(s: string)
    requires Canonical(s)
    ensures Normalize(s) == s
  {
    LetterPassIsSinglePass(s);
    SinglePassFixesAlphabet(s);
    CollapseFixesSingleSpaced(s);
    assert TrimStart(s) == s;
    assert TrimEnd(s) == s;
  }

  /** Normalising twice is normalising once. */
  lemma NormalizeIdempotent(s: string)
    ensures Normalize(Normalize(s)) == Normalize(s)
  {
    NormalizeFixesCanonical(Normalize(s));
  }

  /** Whitespace other than U+0020 (tab, newline, no-break space, ...) is
      deleted by the seventh rewrite, before spaces are collapsed, so it does
      not separate the letters on either side of it. */
  lemma ForeignSpaceVanishes(a: string, c: char, b: string)
    requires IsSpace(c) && c != ' '
    ensures Normalize(a + [c] + b) == Normalize(a + b)
  {
    ForeignSpaceDeleted(a, c, b);
  }

  lemma ForeignSpaceDeleted(a: string, c: char, b: string)
    requires IsSpace(c) && c != ' '
    ensures LetterPass(a + [c] + b) == LetterPass(a + b)
  {
    assert CanonChar(c) == [];
    RewriteSingle(CanonChar, c);
    RewriteAppend(CanonChar, a + [c], b);
    RewriteAppend(CanonChar, a, [c]);
    RewriteAppend(CanonChar, a, b);
    LetterPassIsSinglePass(a + [c] + b);
    LetterPassIsSinglePass(a + b);
  }

  /** To normalise a text it suffices to run the fused table over it and confirm
      that the outcome is already canonical. */
  lemma NormalizeBySinglePass(s: string, t: string)
    requires Rewrite(CanonChar, s) == t && Canonical(t)
    ensures Normalize(s) == t
  {
    LetterPassIsSinglePass(s);
    NormalizeFixesCanonical(t);
    LetterPassIsSinglePass(t);
    SinglePassFixesAlphabet(t);
  }

  /** Two non-empty runs of canonical letters, joined by one space, are canonical. */
  lemma TwoWordsCanonical(a: string, b: string)
    requires a != [] && b != []
    requires forall i :: 0 <= i < |a| ==> IsCanonLetter(a[i])
    requires forall i :: 0 <= i < |b| ==> IsCanonLetter(b[i])
    ensures Canonical(a + " " + b)
  {
    var t := a + " " + b;
    forall i | 0 <= i < |t|
      ensures InAlphabet(t[i]) && (IsSpace(t[i]) <==> i == |a|)
    {
      if i > |a| {
        assert t[i] == b[i - |a| - 1];
      }
    }
    forall i | 0 < i < |t|
      ensures !SpacePairAt(t, i)
    {
    }
  }

  /** Vowel marks (damma, fatha, shadda) disappear: "muhammad" fully vocalised. */
  lemma VocalisedNameExample()
    ensures Normalize("مُحَمَّد") == "محمد"
  {
    VocalisedNamePass();
    OneWordCanonical("محمد");
    NormalizeBySinglePass("مُحَمَّد", "محمد");
  }

  /** A non-empty run of canonical letters is canonical. */
  lemma OneWordCanonical(a: string)
    requires a != []
    requires forall i :: 0 <= i < |a| ==> IsCanonLetter(a[i])
    ensures Canonical(a)
  {
  }

  lemma VocalisedNamePass()
    ensures Rewrite(CanonChar, "مُحَمَّد") == "محمد"
  {
    var s := "مُحَمَّد";
    assert Rewrite(CanonChar, s[7..]) == "د";
    assert Rewrite(CanonChar, s[6..]) == "د";
    assert Rewrite(CanonChar, s[5..]) == "د";
    assert Rewrite(CanonChar, s[4..]) == "مد";
    assert Rewrite(CanonChar, s[3..]) == "مد";
    assert Rewrite(CanonChar, s[2..]) == "حمد";
    assert Rewrite(CanonChar, s[1..]) == "حمد";
  }

  /** Alif with hamza below folds to plain alif; the word space survives. */
  lemma HamzaAlifExample()
    ensures Normalize("نور إيمان") == "نور ايمان"
  {
    HamzaAlifPass();
    HamzaAlifTarget();
    NormalizeBySinglePass("نور إيمان", "نور ايمان");
  }

  lemma HamzaAlifTarget()
    ensures Canonical("نور ايمان")
  {
    assert "نور" + " " + "ايمان" == "نور ايمان";
    TwoWordsCanonical("نور", "ايمان");
  }

  lemma HamzaAlifPass()
    ensures Rewrite(CanonChar, "نور إيمان") == "نور ايمان"
  {
    var first, second := "نور ", "إيمان";
    FirstWordPass();
    SecondWordPass();
    RewriteAppend(CanonChar, first, second);
    assert first + second == "نور إيمان";
    assert first + "ايمان" == "نور ايمان";
  }

  lemma FirstWordPass()
    ensures Rewrite(CanonChar, "نور ") == "نور "
  {
    var first := "نور ";
    assert Rewrite(CanonChar, first[3..]) == " ";
    assert Rewrite(CanonChar, first[2..]) == "ر ";
    assert Rewrite(CanonChar, first[1..]) == "ور ";
  }

  lemma SecondWordPass()
    ensures Rewrite(CanonChar, "إيمان") == "ايمان"
  {
    var second := "إيمان";
    assert Rewrite(CanonChar, second[4..]) == "ن";
    assert Rewrite(CanonChar, second[3..]) == "ان";
    assert Rewrite(CanonChar, second[2..]) == "مان";
    assert Rewrite(CanonChar, second[1..]) == "يمان";
  }

  /** A tab between two letters is deleted, not turned into a space. */
  lemma TabJoinsLettersExample()
    ensures Normalize("ب\tا") == "با"
  {
    var s := "ب\tا";
    assert Rewrite(CanonChar, s[2..]) == "ا";
    assert Rewrite(CanonChar, s[1..]) == "ا";
    assert Rewrite(CanonChar, s) == "با";
    NormalizeBySinglePass(s, "با");
  }
}
