/** String vocabulary shared by the normaliser, the query planner and the ranker:
    JavaScript's whitespace class, one-character-at-a-time rewriting, trimming,
    collapsing, splitting into words, joining, and substring relations. */
module Text {

  /** A character matched by JavaScript's `\s` class; `String.prototype.trim`
      removes exactly the same set (the ECMAScript WhiteSpace and
      LineTerminator productions). */
  predicate IsSpace(c: char) {
    c == ' ' || ('\t' <= c <= '\r') || ('\U{00A0}' <= c && IsWideSpace(c))
  }

  /** The whitespace characters of `\s` above U+0020. */
  predicate IsWideSpace(c: char) {
    || c == '\U{00A0}' || c == '\U{1680}'
    || ('\U{2000}' <= c <= '\U{200A}')
    || c == '\U{2028}' || c == '\U{2029}' || c == '\U{202F}' || c == '\U{205F}'
    || c == '\U{3000}' || c == '\U{FEFF}'
  }

  predicate NoSpace(w: string) {
    forall i :: 0 <= i < |w| ==> !IsSpace(w[i])
  }

  /** Every character of `s` satisfies `ok`. */
  predicate Every(s: string, ok: char -> bool) {
    forall i :: 0 <= i < |s| ==> ok(s[i])
  }

  /** The only whitespace character in `s` is U+0020. */
  predicate OnlyBlanks(s: string) {
    forall i :: 0 <= i < |s| && IsSpace(s[i]) ==> s[i] == ' '
  }

  /** No two neighbouring characters of `s` are both whitespace. */
  predicate NoDoubleSpace(s: string) {
    forall i :: 0 < i < |s| ==> !SpacePairAt(s, i)
  }

  /** Characters `i - 1` and `i` of `s` are both whitespace. */
  predicate SpacePairAt(s: string, i: int)
    requires 0 < i < |s|
  {
    IsSpace(s[i - 1]) && IsSpace(s[i])
  }

  /** Whitespace is only U+0020, never at either end and never doubled. */
  predicate SingleSpaced(s: string) {
    && OnlyBlanks(s)
    && NoDoubleSpace(s)
    && (s != [] ==> !IsSpace(s[0]) && !IsSpace(s[|s| - 1]))
  }

  lemma EverySlice(s: string, ok: char -> bool, a: int, b: int)
    requires Every(s, ok) && 0 <= a <= b <= |s|
    ensures Every(s[a..b], ok)
  {
    assert forall i :: 0 <= i < b - a ==> s[a..b][i] == s[a + i];
  }

  /** Both spacing properties carry over to every slice. */
  lemma SliceSpacing(s: string, a: int, b: int)
    requires OnlyBlanks(s) && NoDoubleSpace(s) && 0 <= a <= b <= |s|
    ensures OnlyBlanks(s[a..b]) && NoDoubleSpace(s[a..b])
  {
    var t := s[a..b];
    forall i | 0 <= i < |t| && IsSpace(t[i])
      ensures t[i] == ' '
    {
      assert t[i] == s[a + i];
    }
    forall i | 0 < i < |t|
      ensures !SpacePairAt(t, i)
    {
      assert t[i - 1] == s[a + i - 1] && t[i] == s[a + i];
      assert !SpacePairAt(s, a + i);
    }
  }

  /** Putting one character in front keeps both spacing properties, provided
      a whitespace character is U+0020 and not followed by whitespace. */
  lemma ConsSpacing(h: char, t: string)
    requires OnlyBlanks(t) && NoDoubleSpace(t)
    requires IsSpace(h) ==> h == ' ' && (t == [] || !IsSpace(t[0]))
    ensures OnlyBlanks([h] + t) && NoDoubleSpace([h] + t)
  {
    var r := [h] + t;
    forall i | 0 <= i < |r| && IsSpace(r[i])
      ensures r[i] == ' '
    {
      if i > 0 {
        assert r[i] == t[i - 1];
      }
    }
    forall i | 0 < i < |r|
      ensures !SpacePairAt(r, i)
    {
      if i > 1 {
        assert r[i - 1] == t[i - 2] && r[i] == t[i - 1];
        assert !SpacePairAt(t, i - 1);
      }
    }
  }

  /** Every character `c` of `s` replaced by the string `rule(c)`, left to right:
      a global `String.prototype.replace` whose pattern matches one character. */
  function Rewrite(rule: char -> seq<char>, s: string): string
  {
    if s == [] then [] else rule(s[0]) + Rewrite(rule, s[1..])
  }

  /** A rewrite treats each character on its own, so it distributes over concatenation. */
  lemma {:induction false} RewriteAppend(rule: char -> seq<char>, a: string, b: string)
    ensures Rewrite(rule, a + b) == Rewrite(rule, a) + Rewrite(rule, b)
  {
    if a == [] {
      assert a + b == b;
    } else {
      assert (a + b)[0] == a[0];
      assert (a + b)[1..] == a[1..] + b;
      RewriteAppend(rule, a[1..], b);
    }
  }

  /** `s.trimStart()`: drops the leading whitespace and nothing else. */
  function TrimStart(s: string): (r: string)
    ensures |r| <= |s|
    ensures r == [] || !IsSpace(r[0])
  {
    if s != [] && IsSpace(s[0]) then TrimStart(s[1..]) else s
  }

  /** `TrimStart` keeps a suffix of its input. */
  lemma {:induction false} TrimStartSuffix(s: string)
    ensures TrimStart(s) == s[|s| - |TrimStart(s)|..]
    decreases |s|
  {
    if s != [] && IsSpace(s[0]) {
      TrimStartSuffix(s[1..]);
      assert s[1..][|s| - 1 - |TrimStart(s)|..] == s[|s| - |TrimStart(s)|..];
    }
  }

  /** `s.trimEnd()`: drops the trailing whitespace and nothing else. */
  function TrimEnd(s: string): (r: string)
    ensures |r| <= |s| && r == s[..|r|]
    ensures r == [] || !IsSpace(r[|r| - 1])
  {
    if s != [] && IsSpace(s[|s| - 1]) then TrimEnd(s[..|s| - 1]) else s
  }

  /** What `TrimStart` drops is whitespace only. */
  lemma {:induction false} TrimStartDropsSpaces(s: string)
    ensures forall i :: 0 <= i < |s| - |TrimStart(s)| ==> IsSpace(s[i])
    decreases |s|
  {
    if s != [] && IsSpace(s[0]) {
      TrimStartDropsSpaces(s[1..]);
      assert forall i :: 0 < i < |s| ==> s[i] == s[1..][i - 1];
    }
  }

  /** What `TrimEnd` drops is whitespace only. */
  lemma {:induction false} TrimEndDropsSpaces(s: string)
    ensures forall i :: |TrimEnd(s)| <= i < |s| ==> IsSpace(s[i])
    decreases |s|
  {
    if s != [] && IsSpace(s[|s| - 1]) {
      TrimEndDropsSpaces(s[..|s| - 1]);
      assert forall i :: 0 <= i < |s| - 1 ==> s[i] == s[..|s| - 1][i];
    }
  }

  /** `s.trim()`. */
  function Trim(s: string): string
  {
    TrimEnd(TrimStart(s))
  }

  /** `s.replace(/\s+/g, " ")`: each maximal run of whitespace becomes one U+0020. */
  function CollapseSpaces(s: string): string
    decreases |s|
  {
    if s == [] then []
    else if IsSpace(s[0]) then [' '] + CollapseSpaces(TrimStart(s[1..]))
    else [s[0]] + CollapseSpaces(s[1..])
  }

  /** After collapsing, whitespace is lone U+0020 characters, and the text
      starts with whitespace exactly when the input did. */
  lemma {:induction false} CollapseSpacesShape(s: string)
    ensures OnlyBlanks(CollapseSpaces(s)) && NoDoubleSpace(CollapseSpaces(s))
    ensures s != [] ==> CollapseSpaces(s) != [] && IsSpace(CollapseSpaces(s)[0]) == IsSpace(s[0])
    decreases |s|
  {
    if s != [] {
      var rest := if IsSpace(s[0]) then TrimStart(s[1..]) else s[1..];
      CollapseSpacesShape(rest);
      var t := CollapseSpaces(rest);
      ConsSpacing(if IsSpace(s[0]) then ' ' else s[0], t);
    }
  }

  /** After collapsing, the text ends with whitespace exactly when the input
      did: a trailing run becomes one U+0020 and is not dropped. */
  lemma {:induction false} CollapseSpacesLast(s: string)
    ensures s != [] ==> CollapseSpaces(s) != [] && IsSpace(CollapseSpaces(s)[|CollapseSpaces(s)| - 1]) == IsSpace(s[|s| - 1])
    decreases |s|
  {
    if s != [] {
      if IsSpace(s[0]) {
        var rest := TrimStart(s[1..]);
        if rest == [] {
          TrimStartDropsSpaces(s[1..]);
        } else {
          TrimStartSuffix(s[1..]);
          assert rest[|rest| - 1] == s[|s| - 1];
          CollapseSpacesLast(rest);
        }
      } else if |s| > 1 {
        CollapseSpacesLast(s[1..]);
      }
    }
  }

  /** Collapsing never lengthens the text; in particular "" stays "". */
  lemma {:induction false} CollapseNoLonger(s: string)
    ensures |CollapseSpaces(s)| <= |s|
    decreases |s|
  {
    if s != [] {
      if IsSpace(s[0]) {
        CollapseNoLonger(TrimStart(s[1..]));
      } else {
        CollapseNoLonger(s[1..]);
      }
    }
  }

  /** Text whose only whitespace is lone U+0020 characters is left unchanged
      by collapsing. */
  lemma {:induction false} CollapseFixesSingleSpaced(s: string)
    requires OnlyBlanks(s) && NoDoubleSpace(s)
    ensures CollapseSpaces(s) == s
    decreases |s|
  {
    if s != [] {
      var t := s[1..];
      SliceSpacing(s, 1, |s|);
      assert s[1..|s|] == t;
      if IsSpace(s[0]) && t != [] {
        assert !SpacePairAt(s, 1);
        assert TrimStart(t) == t;
      }
      CollapseFixesSingleSpaced(t);
      assert s == [s[0]] + t;
    }
  }

  /** Collapsing adds no character but U+0020: whatever every non-whitespace
      character of the input satisfies, every other character of the output
      does too. */
  lemma {:induction false} CollapseKeeps(s: string, ok: char -> bool)
    requires forall i :: 0 <= i < |s| ==> ok(s[i]) || IsSpace(s[i])
    ensures forall i :: 0 <= i < |CollapseSpaces(s)| ==> ok(CollapseSpaces(s)[i]) || CollapseSpaces(s)[i] == ' '
    decreases |s|
  {
    if s != [] {
      var rest := if IsSpace(s[0]) then TrimStart(s[1..]) else s[1..];
      TrimStartSuffix(s[1..]);
      assert forall i :: 0 <= i < |rest| ==> rest[i] == s[|s| - |rest| + i];
      CollapseKeeps(rest, ok);
      var t := CollapseSpaces(rest);
      var r := [if IsSpace(s[0]) then ' ' else s[0]] + t;
      assert forall i :: 0 < i < |r| ==> r[i] == t[i - 1];
    }
  }

  /** The longest whitespace-free prefix of `s`. */
  function TakeWord(s: string): (w: string)
    ensures |w| <= |s| && w == s[..|w|]
    ensures NoSpace(w)
    ensures |w| < |s| ==> IsSpace(s[|w|])
    ensures s != [] && !IsSpace(s[0]) ==> w != []
  {
    if s == [] || IsSpace(s[0]) then [] else [s[0]] + TakeWord(s[1..])
  }

  /** `s.split(/\s+/).filter(Boolean)`: the maximal whitespace-free runs, in order. */
  function Words(s: string): seq<string>
    decreases |s|
  {
    if s == [] then []
    else if IsSpace(s[0]) then Words(s[1..])
    else
      var w := TakeWord(s);
      [w] + Words(s[|w|..])
  }

  /** Every word is non-empty and free of whitespace. */
  lemma {:induction false} WordsShape(s: string)
    ensures forall k :: 0 <= k < |Words(s)| ==> Words(s)[k] != [] && NoSpace(Words(s)[k])
    decreases |s|
  {
    if s != [] {
      if IsSpace(s[0]) {
        WordsShape(s[1..]);
      } else {
        var w := TakeWord(s);
        WordsShape(s[|w|..]);
        var ws := Words(s[|w|..]);
        assert forall k :: 0 < k < |[w] + ws| ==> ([w] + ws)[k] == ws[k - 1];
      }
    }
  }

  /** A property every character of a text has, every character of its words has. */
  lemma {:induction false} WordsKeep(s: string, ok: char -> bool)
    requires Every(s, ok)
    ensures forall k :: 0 <= k < |Words(s)| ==> Every(Words(s)[k], ok)
    decreases |s|
  {
    if s != [] {
      if IsSpace(s[0]) {
        EverySlice(s, ok, 1, |s|);
        WordsKeep(s[1..], ok);
      } else {
        var w := TakeWord(s);
        EverySlice(s, ok, 0, |w|);
        EverySlice(s, ok, |w|, |s|);
        assert s[|w|..|s|] == s[|w|..];
        WordsKeep(s[|w|..], ok);
        var ws := Words(s[|w|..]);
        assert forall k :: 0 < k < |[w] + ws| ==> ([w] + ws)[k] == ws[k - 1];
      }
    }
  }

  /** `ws.join(sep)`. */
  function Join(ws: seq<string>, sep: string): string
  {
    if ws == [] then []
    else if |ws| == 1 then ws[0]
    else ws[0] + sep + Join(ws[1..], sep)
  }

  predicate StartsWith(s: string, w: string) {
    |w| <= |s| && s[..|w|] == w
  }

  /** `t` occurs in `s` starting at index `i`. */
  predicate OccursAt(s: string, t: string, i: int) {
    0 <= i && i + |t| <= |s| && s[i..i + |t|] == t
  }

  /** `s` contains `ts[0]`, then later `ts[1]`, and so on: non-overlapping
      occurrences in the given order, separated by arbitrary (possibly empty) gaps. */
  predicate ContainsInOrder(s: string, ts: seq<string>)
    decreases |ts|
  {
    ts == [] || exists i :: 0 <= i <= |s| && OccursAt(s, ts[0], i) && ContainsInOrder(s[i + |ts[0]|..], ts[1..])
  }

  lemma {:induction false} TakeWordOf(w: string, tail: string)
    requires NoSpace(w)
    requires tail == [] || IsSpace(tail[0])
    ensures TakeWord(w + tail) == w
  {
    if w == [] {
      assert w + tail == tail;
    } else {
      assert (w + tail)[0] == w[0];
      assert (w + tail)[1..] == w[1..] + tail;
      TakeWordOf(w[1..], tail);
    }
  }

  /** A single-spaced text is the words it splits into, joined by one space. */
  lemma {:induction false} JoinWords(s: string)
    requires SingleSpaced(s)
    ensures Join(Words(s), " ") == s
    decreases |s|
  {
    if s != [] {
      var w := TakeWord(s);
      if |w| == |s| {
        assert w == s;
        assert Words(s[|w|..]) == [];
      } else {
        var rest := s[|w| + 1..];
        AfterSpace(s, |w|);
        assert s[|w|..][1..] == rest;
        assert Words(s) == [w] + Words(rest);
        JoinWords(rest);
        JoinCons(w, Words(rest), " ");
        SplitAt(s, |w|);
      }
    }
  }

  lemma SplitAt(s: string, k: int)
    requires 0 <= k < |s|
    ensures s == s[..k] + [s[k]] + s[k + 1..]
  {
  }

  lemma JoinCons(w: string, ws: seq<string>, sep: string)
    requires ws != []
    ensures Join([w] + ws, sep) == w + sep + Join(ws, sep)
  {
    assert ([w] + ws)[1..] == ws;
  }

  /** In a single-spaced text, a space is followed by a non-space, what
      follows it is single-spaced too, and it has words. */
  lemma AfterSpace(s: string, k: int)
    requires SingleSpaced(s) && 0 <= k < |s| && IsSpace(s[k])
    ensures k + 1 < |s| && !IsSpace(s[k + 1]) && s[k] == ' '
    ensures SingleSpaced(s[k + 1..]) && Words(s[k + 1..]) != []
  {
    assert k + 1 < |s|;
    assert !SpacePairAt(s, k + 1);
    SliceSpacing(s, k + 1, |s|);
    assert s[k + 1..|s|] == s[k + 1..];
  }

  lemma JoinStartsWithFirst(ws: seq<string>, sep: string)
    requires ws != []
    ensures StartsWith(Join(ws, sep), ws[0])
  {
    if |ws| > 1 {
      assert Join(ws, sep) == ws[0] + (sep + Join(ws[1..], sep));
    }
  }

  /** Splitting undoes joining with one space, when the words are non-empty
      and whitespace-free. */
  lemma {:induction false} WordsJoin(ws: seq<string>)
    requires forall k :: 0 <= k < |ws| ==> ws[k] != [] && NoSpace(ws[k])
    ensures Words(Join(ws, " ")) == ws
    decreases |ws|
  {
    if ws == [] {
    } else if |ws| == 1 {
      var w := ws[0];
      TakeWordOf(w, []);
      assert w + [] == w;
      assert w[|w|..] == [];
    } else {
      var w := ws[0];
      var rest := Join(ws[1..], " ");
      WordsJoin(ws[1..]);
      JoinStartsWithFirst(ws[1..], " ");
      assert rest != [] && rest[0] == ws[1][0];
      var s := w + (" " + rest);
      assert Join(ws, " ") == s;
      assert s[0] == w[0];
      TakeWordOf(w, " " + rest);
      assert s[|w|..] == " " + rest;
      assert (" " + rest)[1..] == rest;
      assert Words(s) == [w] + Words(rest);
      assert [w] + ws[1..] == ws;
    }
  }

  /** The words, joined by single spaces, contain themselves in order. */
  lemma {:induction false} JoinContainsInOrder(ws: seq<string>)
    ensures ContainsInOrder(Join(ws, " "), ws)
    decreases |ws|
  {
    if ws == [] {
    } else {
      var s := Join(ws, " ");
      var w := ws[0];
      if |ws| == 1 {
        assert OccursAt(s, w, 0);
        assert ContainsInOrder(s[|w|..], ws[1..]);
      } else {
        var rest := Join(ws[1..], " ");
        assert s == w + (" " + rest);
        assert OccursAt(s, w, 0);
        JoinContainsInOrder(ws[1..]);
        ContainsInOrderAfterGap(" ", rest, ws[1..]);
        assert s[|w|..] == " " + rest;
      }
    }
  }

  /** Text in front of a match does not spoil it. */
  lemma ContainsInOrderAfterGap(g: string, s: string, ts: seq<string>)
    requires ContainsInOrder(s, ts)
    ensures ContainsInOrder(g + s, ts)
  {
    if ts != [] {
      var t := ts[0];
      var i :| 0 <= i <= |s| && OccursAt(s, t, i) && ContainsInOrder(s[i + |t|..], ts[1..]);
      var j := |g| + i;
      assert (g + s)[j..j + |t|] == s[i..i + |t|];
      assert (g + s)[j + |t|..] == s[i + |t|..];
      assert OccursAt(g + s, t, j);
    }
  }

  /** Dropping leading whitespace keeps both spacing properties. */
  lemma {:induction false} TrimStartSpacing(v: string)
    requires OnlyBlanks(v) && NoDoubleSpace(v)
    ensures OnlyBlanks(TrimStart(v)) && NoDoubleSpace(TrimStart(v))
    decreases |v|
  {
    if v != [] && IsSpace(v[0]) {
      SliceSpacing(v, 1, |v|);
      assert v[1..|v|] == v[1..];
      TrimStartSpacing(v[1..]);
    }
  }

  /** Dropping trailing whitespace keeps both spacing properties. */
  lemma {:induction false} TrimEndSpacing(v: string)
    requires OnlyBlanks(v) && NoDoubleSpace(v)
    ensures OnlyBlanks(TrimEnd(v)) && NoDoubleSpace(TrimEnd(v))
    decreases |v|
  {
    if v != [] && IsSpace(v[|v| - 1]) {
      SliceSpacing(v, 0, |v| - 1);
      assert v[0..|v| - 1] == v[..|v| - 1];
      TrimEndSpacing(v[..|v| - 1]);
    }
  }

  /** Trimming text whose whitespace is lone U+0020 characters leaves it
      single-spaced. */
  lemma TrimSingleSpaced(v: string)
    requires OnlyBlanks(v) && NoDoubleSpace(v)
    ensures SingleSpaced(Trim(v))
  {
    TrimStartSpacing(v);
    TrimEndSpacing(TrimStart(v));
    var w := TrimStart(v);
    var r := TrimEnd(w);
    if r != [] {
      assert r[0] == w[0];
    }
  }

  /** Trimming keeps only characters the text had: whatever all of them
      satisfy, all characters of the trimmed text satisfy. */
  lemma {:induction false} TrimKeeps(v: string, ok: char -> bool)
    requires Every(v, ok)
    ensures Every(TrimStart(v), ok) && Every(Trim(v), ok)
  {
    var w := TrimStart(v);
    TrimStartSuffix(v);
    EverySlice(v, ok, |v| - |w|, |v|);
    assert v[|v| - |w|..|v|] == w;
    var r := TrimEnd(w);
    EverySlice(w, ok, 0, |r|);
    assert w[0..|r|] == r;
  }

  /** Leading whitespace does not change the words. */
  lemma {:induction false} WordsTrimStart(t: string)
    ensures Words(TrimStart(t)) == Words(t)
    decreases |t|
  {
    if t != [] && IsSpace(t[0]) {
      WordsTrimStart(t[1..]);
    }
  }

  /** One more whitespace character at the end does not change the words. */
  lemma {:induction false} WordsSnocSpace(x: string, c: char)
    requires IsSpace(c)
    ensures Words(x + [c]) == Words(x)
    decreases |x|
  {
    var xc := x + [c];
    if x == [] {
      assert xc == [c];
      assert xc[1..] == [];
    } else if IsSpace(x[0]) {
      assert xc[0] == x[0] && xc[1..] == x[1..] + [c];
      WordsSnocSpace(x[1..], c);
    } else {
      var w := TakeWord(x);
      var rest := x[|w|..];
      assert x == w + rest;
      assert xc == w + (rest + [c]);
      TakeWordOf(w, rest + [c]);
      assert xc[0] == x[0];
      assert xc[|w|..] == rest + [c];
      WordsSnocSpace(rest, c);
    }
  }

  /** Trailing whitespace does not change the words. */
  lemma {:induction false} WordsTrimEnd(t: string)
    ensures Words(TrimEnd(t)) == Words(t)
    decreases |t|
  {
    if t != [] && IsSpace(t[|t| - 1]) {
      var init := t[..|t| - 1];
      assert t == init + [t[|t| - 1]];
      WordsSnocSpace(init, t[|t| - 1]);
      WordsTrimEnd(init);
    }
  }

  /** Trimming does not change the words. */
  lemma WordsTrim(t: string)
    ensures Words(Trim(t)) == Words(t)
  {
    WordsTrimStart(t);
    WordsTrimEnd(TrimStart(t));
  }

  /** Collapsing leaves a whitespace-free prefix in place. */
  lemma {:induction false} CollapseAfterWord(w: string, rest: string)
    requires NoSpace(w)
    ensures CollapseSpaces(w + rest) == w + CollapseSpaces(rest)
    decreases |w|
  {
    if w == [] {
      assert w + rest == rest;
    } else {
      assert (w + rest)[0] == w[0];
      assert (w + rest)[1..] == w[1..] + rest;
      CollapseAfterWord(w[1..], rest);
    }
  }

  /** Collapsing whitespace runs does not change the words. */
  lemma {:induction false} WordsCollapse(s: string)
    ensures Words(CollapseSpaces(s)) == Words(s)
    decreases |s|
  {
    if s != [] {
      if IsSpace(s[0]) {
        var t := TrimStart(s[1..]);
        WordsCollapse(t);
        WordsTrimStart(s[1..]);
        var r := [' '] + CollapseSpaces(t);
        assert r[0] == ' ' && r[1..] == CollapseSpaces(t);
      } else {
        var w := TakeWord(s);
        var rest := s[|w|..];
        assert s == w + rest;
        CollapseAfterWord(w, rest);
        var c := CollapseSpaces(rest);
        CollapseSpacesShape(rest);
        TakeWordOf(w, c);
        assert (w + c)[0] == w[0];
        assert (w + c)[|w|..] == c;
        WordsCollapse(rest);
      }
    }
  }

  /** Text that is all whitespace has no words. */
  lemma {:induction false} WordsOfBlank(t: string)
    requires forall i :: 0 <= i < |t| ==> IsSpace(t[i])
    ensures Words(t) == []
    decreases |t|
  {
    if t != [] {
      assert forall i :: 0 <= i < |t| - 1 ==> t[1..][i] == t[i + 1];
      WordsOfBlank(t[1..]);
    }
  }
}
