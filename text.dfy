/** The ECMAScript string operations the lyric parser relies on: `trim`,
    `trimEnd`, the regular-expression class `\s`, `toLowerCase` on ASCII,
    the two `replace` calls that strip a byte-order mark and normalise line
    ends, and `split("\n")`. */
module Text {

  /** A character removed by `trim`/`trimEnd` and matched by `\s`: the
      ECMAScript WhiteSpace set (TAB, VT, FF, ZWNBSP and every space
      separator of category Zs) together with the LineTerminator set
      (LF, CR, LINE SEPARATOR, PARAGRAPH SEPARATOR). */
  predicate IsWhite(c: char) {
    || c == '\t' || c == '\n' || c == '\U{000B}' || c == '\U{000C}' || c == '\r'
    || c == ' ' || c == '\U{00A0}' || c == '\U{1680}'
    || ('\U{2000}' <= c <= '\U{200A}')
    || c == '\U{2028}' || c == '\U{2029}' || c == '\U{202F}' || c == '\U{205F}'
    || c == '\U{3000}' || c == '\U{FEFF}'
  }

  /** A character the regular-expression `.` refuses to match. */
  predicate IsLineTerminator(c: char) {
    c == '\n' || c == '\r' || c == '\U{2028}' || c == '\U{2029}'
  }

  const BOM: char := '\U{FEFF}'

  predicate AllWhite(s: string) {
    forall i :: 0 <= i < |s| ==> IsWhite(s[i])
  }

  /** Every character of `s` at a position in [lo, hi) is white space. */
  predicate WhiteBetween(s: string, lo: int, hi: int) {
    forall i :: lo <= i < hi && 0 <= i < |s| ==> IsWhite(s[i])
  }

  /** `s.trimEnd()`: the longest prefix of `s` that does not end in white space. */
  function TrimEnd(s: string): (r: string)
    ensures |r| <= |s| && r == s[..|r|]
    ensures WhiteBetween(s, |r|, |s|)
    ensures r == [] || !IsWhite(r[|r| - 1])
  {
    if s != [] && IsWhite(s[|s| - 1]) then TrimEnd(s[..|s| - 1]) else s
  }

  /** A text that does not end in white space is left alone by `trimEnd`. */
  lemma TrimEndUnpadded(s: string)
    requires s == [] || !IsWhite(s[|s| - 1])
    ensures TrimEnd(s) == s
  {
  }

  /** `trimEnd` leaves nothing exactly when the text is all white space. */
  lemma TrimEndAllWhite(s: string)
    ensures AllWhite(TrimEnd(s)) <==> AllWhite(s)
  {
  }

  /** `s.trimStart()`: the longest suffix of `s` that does not start with white space. */
  function TrimStart(s: string): (r: string)
    ensures |r| <= |s| && r == s[|s| - |r|..]
    ensures WhiteBetween(s, 0, |s| - |r|)
    ensures r == [] || !IsWhite(r[0])
  {
    if s != [] && IsWhite(s[0]) then TrimStart(s[1..]) else s
  }

  /** `s.trim()`: white space removed at both ends. */
  function Trim(s: string): (r: string)
    ensures |r| <= |s|
    ensures r == [] <==> AllWhite(s)
    ensures r != [] ==> !IsWhite(r[0]) && !IsWhite(r[|r| - 1])
  {
    TrimStart(TrimEnd(s))
  }

  /** `toLowerCase` restricted to ASCII letters. */
  function LowerChar(c: char): char {
    if 'A' <= c <= 'Z' then (c as int + 32) as char else c
  }

  function LowerAscii(s: string): (r: string)
    ensures |r| == |s|
    ensures forall i :: 0 <= i < |s| ==> r[i] == LowerChar(s[i])
  {
    if s == [] then [] else [LowerChar(s[0])] + LowerAscii(s[1..])
  }

  /** `s.replace(/^\uFEFF/, "")`: one leading byte-order mark removed. */
  function StripBom(s: string): (r: string)
    ensures s != [] && s[0] == BOM ==> [BOM] + r == s
    ensures (s == [] || s[0] != BOM) ==> r == s
  {
    if s != [] && s[0] == BOM then s[1..] else s
  }

  /** `s.replace(/\r\n?/g, "\n")`: every CR LF pair and every lone CR becomes LF. */
  function ToLF(s: string): (r: string)
    ensures '\r' !in r
    ensures |r| <= |s|
    ensures '\r' !in s ==> r == s
  {
    if s == [] then []
    else if s[0] == '\r' then
      if |s| > 1 && s[1] == '\n' then "\n" + ToLF(s[2..]) else "\n" + ToLF(s[1..])
    else
      assert '\r' !in s ==> '\r' !in s[1..];
      [s[0]] + ToLF(s[1..])
  }

  /** `ls.join(sep)`. */
  function Join(ls: seq<string>, sep: string): string {
    if ls == [] then []
    else if |ls| == 1 then ls[0]
    else ls[0] + sep + Join(ls[1..], sep)
  }

  /** `s.split("\n")`: the maximal LF-free pieces between the LFs of `s`. */
  function Split(s: string): (r: seq<string>)
    ensures |r| >= 1
    ensures forall i :: 0 <= i < |r| ==> '\n' !in r[i]
    ensures Join(r, "\n") == s
    decreases |s|
  {
    if s == [] then [[]]
    else
      var rest := Split(s[1..]);
      if s[0] == '\n' then
        assert Join([[]] + rest, "\n") == "\n" + Join(rest, "\n");
        [[]] + rest
      else
        var r := [[s[0]] + rest[0]] + rest[1..];
        assert |rest| > 1 ==> Join(rest, "\n") == rest[0] + "\n" + Join(rest[1..], "\n");
        assert r[1..] == rest[1..];
        r
  }

  /** Splitting LF-free lines joined with LF gives the lines back. */
  lemma {:induction false} SplitJoin(ls: seq<string>)
    requires |ls| >= 1
    requires forall i :: 0 <= i < |ls| ==> '\n' !in ls[i]
    ensures Split(Join(ls, "\n")) == ls
  {
    if |ls| == 1 {
      SplitOfLine(ls[0]);
    } else {
      SplitJoin(ls[1..]);
      SplitPrefix(ls[0], Join(ls[1..], "\n"));
      assert [ls[0]] + ls[1..] == ls;
    }
  }

  lemma {:induction false} SplitOfLine(s: string)
    requires '\n' !in s
    ensures Split(s) == [s]
    decreases |s|
  {
    if s != [] {
      assert '\n' !in s[1..];
      SplitOfLine(s[1..]);
    }
  }

  lemma {:induction false} SplitPrefix(x: string, rest: string)
    requires '\n' !in x
    ensures Split(x + "\n" + rest) == [x] + Split(rest)
    decreases |x|
  {
    if x == [] {
      assert x + "\n" + rest == "\n" + rest;
      assert ("\n" + rest)[1..] == rest;
    } else {
      assert (x + "\n" + rest)[1..] == x[1..] + "\n" + rest;
      assert '\n' !in x[1..];
      SplitPrefix(x[1..], rest);
      assert [x[0]] + x[1..] == x;
    }
  }

  /** Line ends of the form LF, CR LF or CR all normalise to the LF-joined text. */
  lemma {:induction false} ToLFJoin(ls: seq<string>, sep: string)
    requires sep == "\n" || sep == "\r\n" || sep == "\r"
    requires forall i :: 0 <= i < |ls| ==> '\n' !in ls[i] && '\r' !in ls[i]
    ensures ToLF(Join(ls, sep)) == Join(ls, "\n")
  {
    if |ls| == 1 {
    } else if |ls| > 1 {
      var tail := Join(ls[1..], sep);
      assert Join(ls, sep) == ls[0] + (sep + tail);
      assert Join(ls, "\n") == ls[0] + ("\n" + Join(ls[1..], "\n"));
      ToLFJoin(ls[1..], sep);
      JoinFree(ls[1..], sep);
      assert sep == "\r" && tail != [] ==> tail[0] in tail;
      ToLFSeparator(sep, tail);
      ToLFAppend(ls[0], sep + tail);
    }
  }

  lemma ToLFSeparator(sep: string, tail: string)
    requires sep == "\n" || sep == "\r\n" || sep == "\r"
    requires sep == "\r" ==> tail == [] || tail[0] != '\n'
    ensures ToLF(sep + tail) == "\n" + ToLF(tail)
  {
    if sep == "\r\n" {
      assert (sep + tail)[2..] == tail;
    } else {
      assert (sep + tail)[1..] == tail;
      assert sep == "\r" ==> tail == [] || tail[0] != '\n';
    }
  }

  /** A line end as a text file may write it. */
  predicate IsLineEnd(sep: string) {
    sep == "\n" || sep == "\r\n" || sep == "\r"
  }

  /** Lines joined with a line end of its own after each line but the last. */
  function JoinSeps(ls: seq<string>, seps: seq<string>): string
    requires |ls| == |seps| + 1
    decreases |seps|
  {
    if seps == [] then ls[0] else ls[0] + seps[0] + JoinSeps(ls[1..], seps[1..])
  }

  /** No CR line end is directly followed by an LF line end (after an
      empty line), which would read as a single CR LF. */
  predicate NoFusedEnds(ls: seq<string>, seps: seq<string>)
    requires |ls| == |seps| + 1
  {
    forall i :: 0 <= i < |seps| - 1 && seps[i] == "\r" && ls[i + 1] == [] ==> seps[i + 1] != "\n"
  }

  /** The first character of lines joined with their line ends. */
  lemma JoinSepsHead(ls: seq<string>, seps: seq<string>)
    requires |ls| == |seps| + 1
    requires forall i :: 0 <= i < |seps| ==> IsLineEnd(seps[i])
    ensures ls[0] != [] ==> JoinSeps(ls, seps) != [] && JoinSeps(ls, seps)[0] == ls[0][0]
    ensures ls[0] == [] && seps != [] ==>
      seps[0] != [] && JoinSeps(ls, seps) != [] && JoinSeps(ls, seps)[0] == seps[0][0]
    ensures ls[0] == [] && seps == [] ==> JoinSeps(ls, seps) == []
  {
  }

  /** Every line end, whatever its style and however styles are mixed,
      becomes one LF: normalising gives the LF-joined lines. */
  lemma {:induction false} ToLFJoinSeps(ls: seq<string>, seps: seq<string>)
    requires |ls| == |seps| + 1
    requires forall i :: 0 <= i < |ls| ==> '\n' !in ls[i] && '\r' !in ls[i]
    requires forall i :: 0 <= i < |seps| ==> IsLineEnd(seps[i])
    requires NoFusedEnds(ls, seps)
    ensures ToLF(JoinSeps(ls, seps)) == Join(ls, "\n")
    decreases |seps|
  {
    if seps != [] {
      var tail := JoinSeps(ls[1..], seps[1..]);
      assert JoinSeps(ls, seps) == ls[0] + (seps[0] + tail);
      assert Join(ls, "\n") == ls[0] + ("\n" + Join(ls[1..], "\n"));
      assert NoFusedEnds(ls[1..], seps[1..]) by {
        forall i | 0 <= i < |seps| - 2 && seps[1..][i] == "\r" && ls[1..][i + 1] == []
          ensures seps[1..][i + 1] != "\n"
        {
          assert seps[i + 1] == "\r" && ls[i + 2] == [];
        }
      }
      ToLFJoinSeps(ls[1..], seps[1..]);
      JoinSepsHead(ls[1..], seps[1..]);
      assert ls[1] != [] ==> ls[1][0] in ls[1];
      assert seps[0] == "\r" && ls[1] == [] && |seps| > 1 ==> seps[1] != "\n";
      ToLFSeparator(seps[0], tail);
      ToLFAppend(ls[0], seps[0] + tail);
    }
  }

  /** Joining CR- and LF-free lines with CR leaves no LF. */
  lemma {:induction false} JoinFree(ls: seq<string>, sep: string)
    requires sep == "\n" || sep == "\r\n" || sep == "\r"
    requires forall i :: 0 <= i < |ls| ==> '\n' !in ls[i] && '\r' !in ls[i]
    ensures sep == "\r" ==> '\n' !in Join(ls, sep)
  {
    if |ls| > 1 {
      JoinFree(ls[1..], sep);
    }
  }

  lemma {:induction false} ToLFAppend(x: string, y: string)
    requires '\r' !in x
    ensures ToLF(x + y) == x + ToLF(y)
    decreases |x|
  {
    if x != [] {
      var xy := x + y;
      assert xy[0] == x[0] && x[0] != '\r';
      assert xy[1..] == x[1..] + y;
      assert '\r' !in x[1..];
      ToLFAppend(x[1..], y);
      assert ToLF(xy) == [x[0]] + ToLF(xy[1..]);
      assert [x[0]] + x[1..] == x;
    } else {
      assert x + y == y;
    }
  }

  /** Normalising line ends twice is the same as once. */
  lemma ToLFIdempotent(s: string)
    ensures ToLF(ToLF(s)) == ToLF(s)
  {
  }

  /** Removing a leading byte-order mark and normalising line ends commute. */
  lemma StripBomToLF(s: string)
    ensures StripBom(ToLF(s)) == ToLF(StripBom(s))
  {
    if s != [] && s[0] == BOM {
      assert ToLF(s) == [BOM] + ToLF(s[1..]);
    }
  }

  /** White space appended to a text disappears under `trimEnd`. */
  lemma {:induction false} TrimEndPadded(x: string, w: string)
    requires AllWhite(w)
    ensures TrimEnd(x + w) == TrimEnd(x)
    decreases |w|
  {
    if w != [] {
      var w' := w[..|w| - 1];
      assert (x + w)[..|x + w| - 1] == x + w';
      TrimEndPadded(x, w');
    } else {
      assert x + w == x;
    }
  }

  /** White space prepended to a text disappears under `trimStart`. */
  lemma {:induction false} TrimStartPadded(w: string, x: string)
    requires AllWhite(w)
    ensures TrimStart(w + x) == TrimStart(x)
    decreases |w|
  {
    if w != [] {
      assert (w + x)[1..] == w[1..] + x;
      TrimStartPadded(w[1..], x);
    } else {
      assert w + x == x;
    }
  }

  /** `trimEnd` keeps exactly the prefix that is followed only by white
      space and that is empty or ends in a non-white character. */
  lemma TrimEndUnique(s: string, k: nat)
    requires k <= |s| && WhiteBetween(s, k, |s|)
    requires k == 0 || !IsWhite(s[k - 1])
    ensures TrimEnd(s) == s[..k]
  {
    var r := TrimEnd(s);
    assert |r| < k ==> IsWhite(s[k - 1]);
    assert |r| > k ==> r[|r| - 1] == s[|r| - 1];
  }

  /** `trimEnd` keeps every character before the last non-white one. */
  lemma TrimEndPrefix(w: string, t: string)
    requires !AllWhite(t)
    ensures TrimEnd(w + t) == w + TrimEnd(t)
  {
    var r := TrimEnd(t);
    var s := w + t;
    assert r == [] ==> WhiteBetween(t, 0, |t|);
    assert r[|r| - 1] == s[|w| + |r| - 1];
    forall i | |w| + |r| <= i < |s|
      ensures IsWhite(s[i])
    {
      assert s[i] == t[i - |w|];
    }
    TrimEndUnique(s, |w| + |r|);
    assert s[..|w| + |r|] == w + r;
  }

  /** `trim` ignores white space around a text. */
  lemma {:induction false} TrimPadded(w1: string, t: string, w2: string)
    requires AllWhite(w1) && AllWhite(w2)
    ensures Trim(w1 + t + w2) == Trim(t)
  {
    TrimEndPadded(w1 + t, w2);
    if AllWhite(t) {
      assert AllWhite(w1 + t);
    } else {
      TrimEndPrefix(w1, t);
      TrimStartPadded(w1, TrimEnd(t));
    }
  }

  /** A text with no white space at either end is its own `trim`. */
  lemma TrimUnpadded(s: string)
    requires s == [] || (!IsWhite(s[0]) && !IsWhite(s[|s| - 1]))
    ensures Trim(s) == s
  {
  }

  /** A text without upper-case ASCII letters is its own lower-case form. */
  lemma LowerUnchanged(s: string)
    requires forall i :: 0 <= i < |s| ==> !('A' <= s[i] <= 'Z')
    ensures LowerAscii(s) == s
  {
  }

  /** `trim` and ASCII lower-casing commute, since no ASCII letter is white space. */
  lemma {:induction false} TrimLower(s: string)
    ensures LowerAscii(Trim(s)) == Trim(LowerAscii(s))
  {
    TrimEndLower(s);
    TrimStartLower(TrimEnd(s));
  }

  lemma {:induction false} TrimEndLower(s: string)
    ensures LowerAscii(TrimEnd(s)) == TrimEnd(LowerAscii(s))
    decreases |s|
  {
    if s != [] {
      var n := |s| - 1;
      var l := LowerAscii(s);
      var c := s[n];
      assert l[..n] == LowerAscii(s[..n]);
      assert l[n] == LowerChar(c);
      LowerWhite(c);
      if IsWhite(c) {
        assert TrimEnd(s) == TrimEnd(s[..n]);
        TrimEndLower(s[..n]);
        assert IsWhite(l[n]);
        assert TrimEnd(l) == TrimEnd(l[..n]);
      } else {
        assert TrimEnd(s) == s;
        assert !IsWhite(l[n]);
        assert TrimEnd(l) == l;
      }
    }
  }

  /** No ASCII letter is white space, so lower-casing keeps white space apart. */
  lemma LowerWhite(c: char)
    ensures IsWhite(LowerChar(c)) == IsWhite(c)
  {
  }

  lemma {:induction false} TrimStartLower(s: string)
    ensures LowerAscii(TrimStart(s)) == TrimStart(LowerAscii(s))
    decreases |s|
  {
    if s != [] {
      assert LowerAscii(s)[1..] == LowerAscii(s[1..]);
      LowerWhite(s[0]);
      if IsWhite(s[0]) {
        TrimStartLower(s[1..]);
      } else {
        assert TrimStart(LowerAscii(s)) == LowerAscii(s);
      }
    }
  }
}
