/** The part of Go's `strings` package that the relay's line handling relies on.

    A Go string is a byte string; here a string is a sequence of Unicode
    scalar values, that is, the decoding of a valid UTF-8 line. For such
    lines `TrimSpace` and `Fields` decode the same characters, and `SplitN`
    and `Split` cut at the same ASCII separator. Three things differ: a line
    that is not valid UTF-8 has no counterpart here, Go's `len` counts
    bytes where `|s|` counts characters, and `ToUpper` maps only the ASCII
    letters where Go's maps every letter that has an upper-case form.
 */
module GoStrings {

  /** Go's `unicode.IsSpace`: the ASCII white space characters, NEL, NBSP and
      the characters with the Unicode White_Space property above Latin-1. */
  predicate IsSpace(c: char) {
    if c <= ' ' then c == ' ' || '\t' <= c <= '\r'
    else
      || c == '\U{0085}' || c == '\U{00A0}' || c == '\U{1680}'
      || ('\U{2000}' <= c <= '\U{200A}')
      || c == '\U{2028}' || c == '\U{2029}' || c == '\U{202F}' || c == '\U{205F}' || c == '\U{3000}'
  }

  predicate AllSpace(s: string) {
    forall i | 0 <= i < |s| :: IsSpace(s[i])
  }

  predicate NoSpace(s: string) {
    forall i | 0 <= i < |s| :: !IsSpace(s[i])
  }

  predicate HasPrefix(s: string, prefix: string) {
    |prefix| <= |s| && s[..|prefix|] == prefix
  }

  /** Leading white space removed: the result is a suffix of `s`, what was
      dropped is white space, and the result does not start with white space. */
  function TrimLeft(s: string): (r: string)
    ensures |r| <= |s| && r == s[|s| - |r|..]
    ensures AllSpace(s[..|s| - |r|])
    ensures r == [] || !IsSpace(r[0])
    decreases |s|
  {
    if s != [] && IsSpace(s[0]) then
      var r := TrimLeft(s[1..]);
      assert s[..|s| - |r|] == [s[0]] + s[1..][..|s| - 1 - |r|];
      r
    else
      s
  }

  /** Trailing white space removed: the result is a prefix of `s`, what was
      dropped is white space, and the result does not end with white space. */
  function TrimRight(s: string): (r: string)
    ensures |r| <= |s| && r == s[..|r|]
    ensures AllSpace(s[|r|..])
    ensures r == [] || !IsSpace(r[|r| - 1])
    decreases |s|
  {
    if s != [] && IsSpace(s[|s| - 1]) then
      var r := TrimRight(s[..|s| - 1]);
      assert s[|r|..] == s[..|s| - 1][|r|..] + [s[|s| - 1]];
      r
    else
      s
  }

  /** `strings.TrimSpace`: empty exactly when `s` is blank, and otherwise
      neither starting nor ending with white space. `TrimSpaceIsSlice` adds
      that what was removed is white space at both ends. */
  function TrimSpace(s: string): (r: string)
    ensures |r| <= |s|
    ensures r == [] <==> AllSpace(s)
    ensures r != [] ==> !IsSpace(r[0]) && !IsSpace(r[|r| - 1])
  {
    TrimSpaceBlank(s);
    TrimRight(TrimLeft(s))
  }

  lemma {:induction false} TrimSpaceBlank(s: string)
    ensures TrimRight(TrimLeft(s)) == [] <==> AllSpace(s)
    ensures var r := TrimRight(TrimLeft(s)); r != [] ==> !IsSpace(r[0]) && !IsSpace(r[|r| - 1])
  {
    var l := TrimLeft(s);
    var r := TrimRight(l);
    if r == [] {
      assert l[|r|..] == l;
      assert l == [];
      assert s[..|s| - |l|] == s;
    } else {
      assert r[0] == l[0];
    }
  }

  /** What `TrimSpace` keeps is one contiguous slice of `s`, and everything
      before and after it is white space. */
  lemma {:induction false} TrimSpaceIsSlice(s: string)
    ensures exists a, b :: s == a + TrimSpace(s) + b && AllSpace(a) && AllSpace(b)
  {
    var l := TrimLeft(s);
    var r := TrimRight(l);
    assert r == TrimSpace(s);
    PrefixOfSuffix(s, l, r);
  }

  /** The prefix `r` of a suffix `l` of `s`, where what comes before `l` and
      what follows `r` in it are white space, is `s` with white space cut
      from both ends. */
  lemma PrefixOfSuffix(s: string, l: string, r: string)
    requires |l| <= |s| && l == s[|s| - |l|..] && AllSpace(s[..|s| - |l|])
    requires |r| <= |l| && r == l[..|r|] && AllSpace(l[|r|..])
    ensures exists a, b :: s == a + r + b && AllSpace(a) && AllSpace(b)
  {
    var a, b := s[..|s| - |l|], l[|r|..];
    assert l == r + b;
    assert s == a + l;
    assert s == a + r + b && AllSpace(a) && AllSpace(b);
  }

  /** The longest prefix of `s` that holds no white space. */
  function Word(s: string): (w: string)
    ensures |w| <= |s| && w == s[..|w|] && NoSpace(w)
    ensures |w| < |s| ==> IsSpace(s[|w|])
  {
    if s == [] || IsSpace(s[0]) then [] else [s[0]] + Word(s[1..])
  }

  /** `strings.Fields`: the maximal runs of non-white-space characters, in
      order. Every field is non-empty and white-space free, and there is none
      exactly when `s` is blank. */
  function Fields(s: string): (r: seq<string>)
    ensures forall f | f in r :: f != [] && NoSpace(f)
    ensures r == [] <==> AllSpace(s)
    decreases |s|
  {
    if s == [] then []
    else if IsSpace(s[0]) then
      var r := Fields(s[1..]);
      assert forall k | 1 <= k < |s| :: s[k] == s[1..][k - 1];
      r
    else
      var w := Word(s);
      [w] + Fields(s[|w|..])
  }

  /** `strings.Join`. */
  function Join(parts: seq<string>, sep: string): string {
    if |parts| == 0 then []
    else if |parts| == 1 then parts[0]
    else parts[0] + sep + Join(parts[1..], sep)
  }

  /** `strings.Split` with a one-character separator: the pieces hold no
      separator, there is always at least one, and joining them back with the
      separator gives `s` again. */
  function Split(s: string, sep: char): (r: seq<string>)
    ensures |r| >= 1
    ensures forall p | p in r :: sep !in p
    ensures Join(r, [sep]) == s
  {
    if s == [] then [[]]
    else
      var rest := Split(s[1..], sep);
      if s[0] == sep then
        assert ([[]] + rest)[1..] == rest;
        [[]] + rest
      else
        var r := [[s[0]] + rest[0]] + rest[1..];
        assert r[1..] == rest[1..];
        assert |rest| > 1 ==> Join(rest, [sep]) == rest[0] + [sep] + Join(rest[1..], [sep]);
        assert forall p | p in r :: p == [s[0]] + rest[0] || p in rest;
        r
  }

  /** `strings.SplitN(s, sep, 2)` with a one-character separator: either no
      separator occurs and the one piece is `s`, or the first piece is the
      text before the first separator and the second the text after it. */
  function SplitN2(s: string, sep: char): (r: seq<string>)
    ensures 1 <= |r| <= 2 && sep !in r[0]
    ensures |r| == 1 <==> sep !in s
    ensures |r| == 1 ==> r[0] == s
    ensures |r| == 2 ==> s == r[0] + [sep] + r[1]
  {
    if s == [] then [s]
    else if s[0] == sep then [[], s[1..]]
    else
      var rest := SplitN2(s[1..], sep);
      assert s == [s[0]] + s[1..];
      [[s[0]] + rest[0]] + rest[1..]
  }

  /** The position of the first `c` in `s`, or -1 (`strings.IndexByte`). */
  function IndexOf(s: string, c: char): (r: int)
    ensures r == -1 <==> c !in s
    ensures r != -1 ==> 0 <= r < |s| && s[r] == c && c !in s[..r]
  {
    if s == [] then -1
    else if s[0] == c then 0
    else
      var k := IndexOf(s[1..], c);
      assert s[1..] == s[1..|s|];
      if k == -1 then -1 else (assert s[..k + 1] == [s[0]] + s[1..][..k]; k + 1)
  }

  /** ASCII upper-casing of one character. */
  function UpperAscii(c: char): char {
    if 'a' <= c <= 'z' then (c as int - 32) as char else c
  }

  /** `strings.ToUpper`, restricted to ASCII letters. */
  function ToUpper(s: string): (r: string)
    ensures |r| == |s| && forall i | 0 <= i < |s| :: r[i] == UpperAscii(s[i])
  {
    if s == [] then [] else [UpperAscii(s[0])] + ToUpper(s[1..])
  }

  lemma {:induction false} TrimLeftOfTrimmed(s: string)
    requires s == [] || !IsSpace(s[0])
    ensures TrimLeft(s) == s
  {
  }

  lemma {:induction false} TrimRightOfTrimmed(s: string)
    requires s == [] || !IsSpace(s[|s| - 1])
    ensures TrimRight(s) == s
  {
  }

  /** A string that neither starts nor ends with white space is its own trim. */
  lemma {:induction false} TrimSpaceOfTrimmed(t: string)
    requires t == [] || (!IsSpace(t[0]) && !IsSpace(t[|t| - 1]))
    ensures TrimSpace(t) == t
  {
    TrimLeftOfTrimmed(t);
    TrimRightOfTrimmed(t);
  }

  /** A string with no white space at all is its own trim. */
  lemma {:induction false} TrimSpaceOfNoSpace(s: string)
    requires NoSpace(s)
    ensures TrimSpace(s) == s
  {
    TrimSpaceOfTrimmed(s);
  }

  lemma {:induction false} WordOfField(w: string, rest: string)
    requires NoSpace(w)
    requires rest == [] || IsSpace(rest[0])
    ensures Word(w + rest) == w
    decreases |w|
  {
    if w == [] {
    } else {
      assert (w + rest)[1..] == w[1..] + rest;
      WordOfField(w[1..], rest);
    }
  }

  /** Leading white space contributes no field. */
  lemma {:induction false} FieldsAfterSpace(sp: string, s: string)
    requires AllSpace(sp)
    ensures Fields(sp + s) == Fields(s)
    decreases |sp|
  {
    if sp != [] {
      assert (sp + s)[0] == sp[0] && (sp + s)[1..] == sp[1..] + s;
      FieldsAfterSpace(sp[1..], s);
    } else {
      assert sp + s == s;
    }
  }

  /** A word followed by white space (or by nothing) is the first field. */
  lemma FieldsOfWord(w: string, rest: string)
    requires w != [] && NoSpace(w)
    requires rest == [] || IsSpace(rest[0])
    ensures Fields(w + rest) == [w] + Fields(rest)
  {
    WordOfField(w, rest);
    assert (w + rest)[|w|..] == rest;
  }

  /** The first field of a text that starts with a non-space character is
      its leading word. */
  lemma FirstFieldIsWord(t: string)
    requires t != [] && !IsSpace(t[0])
    ensures Fields(t) != [] && Fields(t)[0] == Word(t)
  {
  }

  /** The words `ws` laid out with the gap `gaps[i]` before `ws[i]` and the
      gap `gaps[|ws|]` after the last word. */
  function Layout(ws: seq<string>, gaps: seq<string>): string
    requires |gaps| == |ws| + 1
  {
    if ws == [] then gaps[0] else gaps[0] + ws[0] + Layout(ws[1..], gaps[1..])
  }

  /** Gaps that can separate `n` words: all white space, and non-empty
      between two words. */
  predicate IsGaps(gaps: seq<string>, n: nat) {
    && |gaps| == n + 1
    && (forall i | 0 <= i < |gaps| :: AllSpace(gaps[i]))
    && (forall i | 0 < i < n :: gaps[i] != [])
  }

  /** `Fields` finds exactly the words of any layout: whatever white space
      separates them, and whatever white space surrounds them. */
  lemma {:induction false} FieldsOfLayout(ws: seq<string>, gaps: seq<string>)
    requires forall w | w in ws :: w != [] && NoSpace(w)
    requires IsGaps(gaps, |ws|)
    ensures Fields(Layout(ws, gaps)) == ws
    decreases |ws|
  {
    if ws == [] {
      assert AllSpace(gaps[0]);
    } else {
      var rest := Layout(ws[1..], gaps[1..]);
      WordsTail(ws);
      GapsTail(gaps, |ws|);
      FieldsOfLayout(ws[1..], gaps[1..]);
      LayoutAfterWord(ws, gaps);
      FieldsOfWord(ws[0], rest);
      LayoutCons(ws, gaps);
      FieldsAfterSpace(gaps[0], ws[0] + rest);
      HeadTail(ws);
    }
  }

  lemma WordsTail(ws: seq<string>)
    requires ws != [] && forall w | w in ws :: w != [] && NoSpace(w)
    ensures ws[0] != [] && NoSpace(ws[0])
    ensures forall w | w in ws[1..] :: w != [] && NoSpace(w)
  {
    assert ws[0] in ws;
    assert forall w | w in ws[1..] :: w in ws;
  }

  lemma LayoutCons(ws: seq<string>, gaps: seq<string>)
    requires ws != [] && |gaps| == |ws| + 1
    ensures Layout(ws, gaps) == gaps[0] + (ws[0] + Layout(ws[1..], gaps[1..]))
  {
  }

  /** Two sequence identities, stated for any element type so that proofs
      about sequences of strings use them without unfolding the strings. */
  lemma HeadTail<T>(s: seq<T>)
    requires s != []
    ensures [s[0]] + s[1..] == s
  {
  }

  lemma PairDisplay<T>(x: T, y: T)
    ensures [x] + [y] == [x, y]
  {
  }

  lemma GapsTail(gaps: seq<string>, n: nat)
    requires n >= 1 && IsGaps(gaps, n)
    ensures IsGaps(gaps[1..], n - 1)
  {
    assert forall i | 0 < i < n - 1 :: gaps[1..][i] == gaps[i + 1];
  }

  /** After the first word of a layout comes white space or the end. */
  lemma LayoutAfterWord(ws: seq<string>, gaps: seq<string>)
    requires |ws| >= 1 && IsGaps(gaps, |ws|)
    ensures var rest := Layout(ws[1..], gaps[1..]); rest == [] || IsSpace(rest[0])
  {
    var rest := Layout(ws[1..], gaps[1..]);
    assert AllSpace(gaps[1]);
    if |ws| > 1 {
      assert rest == gaps[1] + (ws[1] + Layout(ws[2..], gaps[2..]));
      assert rest[0] == gaps[1][0];
    } else {
      assert rest == gaps[1];
    }
  }

  /** `Fields` undoes `Join` with a single space, as long as every part is a
      non-empty run of non-white-space characters. */
  lemma {:induction false} FieldsOfJoin(ws: seq<string>)
    requires forall w | w in ws :: w != [] && NoSpace(w)
    ensures Fields(Join(ws, " ")) == ws
    decreases |ws|
  {
    if |ws| == 0 {
    } else if |ws| == 1 {
      WordOfField(ws[0], []);
      assert ws[0] + [] == ws[0];
      assert ws[0][|ws[0]|..] == [];
    } else {
      var s := Join(ws, " ");
      var tail := Join(ws[1..], " ");
      assert s == ws[0] + (" " + tail);
      WordOfField(ws[0], " " + tail);
      assert s[|ws[0]|..] == " " + tail;
      assert (" " + tail)[1..] == tail;
      assert forall w | w in ws[1..] :: w in ws;
      FieldsOfJoin(ws[1..]);
      assert ws == [ws[0]] + ws[1..];
    }
  }

  /** `Split` undoes `Join` with the same one-character separator when no
      part holds the separator. */
  lemma {:induction false} SplitOfJoin(ps: seq<string>, sep: char)
    requires |ps| >= 1
    requires forall p | p in ps :: sep !in p
    ensures Split(Join(ps, [sep]), sep) == ps
    decreases |ps|, |ps[0]|
  {
    var s := Join(ps, [sep]);
    if |ps| == 1 {
      SplitOfPart(ps[0], sep);
    } else if ps[0] == [] {
      assert s == [sep] + Join(ps[1..], [sep]);
      assert s[1..] == Join(ps[1..], [sep]);
      assert forall p | p in ps[1..] :: p in ps;
      SplitOfJoin(ps[1..], sep);
      assert ps == [[]] + ps[1..];
    } else {
      var c := ps[0][0];
      var ps' := [ps[0][1..]] + ps[1..];
      assert ps[0] in ps;
      assert ps[0] == [c] + ps[0][1..];
      assert sep !in ps[0][1..] && c != sep;
      assert forall p | p in ps' :: p == ps[0][1..] || p in ps;
      SplitOfJoin(ps', sep);
      JoinConsChar(c, ps', [sep]);
      assert ps == [[c] + ps'[0]] + ps'[1..];
      SplitConsChar(c, Join(ps', [sep]), sep);
    }
  }

  lemma JoinConsChar(c: char, ps: seq<string>, sep: string)
    requires |ps| >= 1
    ensures Join([[c] + ps[0]] + ps[1..], sep) == [c] + Join(ps, sep)
  {
    var qs := [[c] + ps[0]] + ps[1..];
    assert qs[1..] == ps[1..];
  }

  lemma SplitConsChar(c: char, t: string, sep: char)
    requires c != sep
    ensures Split([c] + t, sep) == [[c] + Split(t, sep)[0]] + Split(t, sep)[1..]
  {
    assert ([c] + t)[1..] == t;
  }

  lemma {:induction false} SplitOfPart(p: string, sep: char)
    requires sep !in p
    ensures Split(p, sep) == [p]
    decreases |p|
  {
    if p != [] {
      SplitOfPart(p[1..], sep);
      assert p == [p[0]] + p[1..];
    }
  }

  lemma JoinCons(a: string, ws: seq<string>, sep: string)
    requires |ws| >= 1
    ensures Join([a] + ws, sep) == a + sep + Join(ws, sep)
  {
    assert ([a] + ws)[1..] == ws;
  }

  /** Joining white-space-free parts with a white-space-free separator gives
      a white-space-free string. */
  lemma {:induction false} JoinNoSpace(ps: seq<string>, sep: string)
    requires NoSpace(sep)
    requires forall p | p in ps :: NoSpace(p)
    ensures NoSpace(Join(ps, sep))
    decreases |ps|
  {
    if |ps| > 1 {
      assert ps[0] in ps;
      assert forall p | p in ps[1..] :: p in ps;
      JoinNoSpace(ps[1..], sep);
      var t := Join(ps[1..], sep);
      assert Join(ps, sep) == ps[0] + sep + t;
      assert forall i | 0 <= i < |ps[0] + sep + t| ::
        (ps[0] + sep + t)[i] == if i < |ps[0]| then ps[0][i] else if i < |ps[0]| + |sep| then sep[i - |ps[0]|] else t[i - |ps[0]| - |sep|];
    } else if |ps| == 1 {
      assert ps[0] in ps;
    }
  }

  /** Joining ends with the last part. */
  lemma {:induction false} JoinEndsWithLast(ps: seq<string>, sep: string)
    requires |ps| >= 1
    ensures |Join(ps, sep)| >= |ps[|ps| - 1]|
    ensures Join(ps, sep)[|Join(ps, sep)| - |ps[|ps| - 1]|..] == ps[|ps| - 1]
    decreases |ps|
  {
    if |ps| > 1 {
      JoinEndsWithLast(ps[1..], sep);
      var t := Join(ps[1..], sep);
      assert Join(ps, sep) == ps[0] + sep + t;
      assert ps[1..][|ps| - 2] == ps[|ps| - 1];
    }
  }

  lemma {:induction false} TrimLeftAfterSpace(sp: string, x: string)
    requires AllSpace(sp)
    ensures TrimLeft(sp + x) == TrimLeft(x)
    decreases |sp|
  {
    if sp != [] {
      var s := sp + x;
      assert s[0] == sp[0] && IsSpace(s[0]);
      assert TrimLeft(s) == TrimLeft(s[1..]);
      assert s[1..] == sp[1..] + x;
      TrimLeftAfterSpace(sp[1..], x);
    } else {
      assert sp + x == x;
    }
  }

  lemma {:induction false} TrimRightBeforeSpace(y: string, sp: string)
    requires AllSpace(sp)
    ensures TrimRight(y + sp) == TrimRight(y)
    decreases |sp|
  {
    if sp != [] {
      var sp' := sp[..|sp| - 1];
      var s := y + sp;
      assert s[|s| - 1] == sp[|sp| - 1] && IsSpace(s[|s| - 1]);
      assert TrimRight(s) == TrimRight(s[..|s| - 1]);
      assert s[..|s| - 1] == y + sp';
      TrimRightBeforeSpace(y, sp');
    } else {
      assert y + sp == y;
    }
  }

  /** Padding a trimmed text with white space on either side does not change
      its trim. */
  lemma TrimSpaceOfPadded(pre: string, t: string, post: string)
    requires AllSpace(pre) && AllSpace(post)
    requires t != [] && !IsSpace(t[0]) && !IsSpace(t[|t| - 1])
    ensures TrimSpace(pre + t + post) == t
  {
    assert pre + t + post == pre + (t + post);
    TrimLeftAfterSpace(pre, t + post);
    TrimLeftOfTrimmed(t + post);
    TrimRightBeforeSpace(t, post);
    TrimRightOfTrimmed(t);
  }

  /** A string of no white space preceded by one space trims back to itself. */
  lemma TrimSpaceOfSpaced(w: string)
    requires w != [] && NoSpace(w)
    ensures TrimSpace(" " + w) == w
  {
    assert (" " + w)[1..] == w;
    TrimLeftOfTrimmed(w);
    assert TrimLeft(" " + w) == w;
    TrimRightOfTrimmed(w);
  }
}
