/** The string operations the transcript scanners use: strip, join, search and split. */
module Text {

  /** The characters Python's strip removes. */
  predicate IsSpace(c: char) {
    var n := c as int;
    9 <= n <= 13 || 28 <= n <= 32 || n == 0x85 || n == 0xA0 || n == 0x1680 || 0x2000 <= n <= 0x200A
    || n == 0x2028 || n == 0x2029 || n == 0x202F || n == 0x205F || n == 0x3000
  }

  predicate Blank(s: string) {
    forall i :: 0 <= i < |s| ==> IsSpace(s[i])
  }

  predicate AllBlank(lines: seq<string>) {
    forall i :: 0 <= i < |lines| ==> Blank(lines[i])
  }

  function LStrip(s: string): string {
    if s != "" && IsSpace(s[0]) then LStrip(s[1..]) else s
  }

  function RStrip(s: string): string {
    if s != "" && IsSpace(s[|s| - 1]) then RStrip(s[..|s| - 1]) else s
  }

  function Strip(s: string): string {
    RStrip(LStrip(s))
  }

  /** Lines joined by newlines. */
  function Join(lines: seq<string>): string {
    if lines == [] then ""
    else if |lines| == 1 then lines[0]
    else Join(lines[..|lines| - 1]) + "\n" + lines[|lines| - 1]
  }

  predicate Contains(s: string, t: string) {
    t <= s || (s != "" && Contains(s[1..], t))
  }

  /** What follows the first occurrence of `t`. */
  function After(s: string, t: string): string
    requires Contains(s, t)
  {
    if t <= s then s[|t|..] else After(s[1..], t)
  }

  /** What follows the last occurrence of `c`, or the whole string. */
  function AfterLast(s: string, c: char): string {
    if s == "" || s[|s| - 1] == c then "" else AfterLast(s[..|s| - 1], c) + [s[|s| - 1]]
  }

  /** What precedes the first occurrence of `c`, or the whole string. */
  function BeforeFirst(s: string, c: char): string {
    if s == "" || s[0] == c then "" else [s[0]] + BeforeFirst(s[1..], c)
  }

  // ---------- searching ----------

  lemma {:induction false} ContainsExactly(s: string, t: string)
    ensures Contains(s, t) <==> exists i :: 0 <= i <= |s| && t <= s[i..]
  {
    if s != "" {
      ContainsExactly(s[1..], t);
      assert s[0..] == s;
      assert forall i :: 0 <= i <= |s| - 1 ==> s[1..][i..] == s[i + 1..];
      if Contains(s, t) && !(t <= s) {
        var i :| 0 <= i <= |s[1..]| && t <= s[1..][i..];
        assert t <= s[i + 1..];
      }
      if exists i :: 0 <= i <= |s| && t <= s[i..] {
        var i :| 0 <= i <= |s| && t <= s[i..];
        if i > 0 {
          assert t <= s[1..][i - 1..];
        }
      }
    } else {
      assert s[0..] == s;
      assert forall i :: 0 <= i <= 0 ==> s[i..] == s;
    }
  }

  lemma ContainsWithin(p: string, t: string, q: string)
    ensures Contains(p + t + q, t)
  {
    var s := p + t + q;
    ContainsExactly(s, t);
    assert s[|p|..] == t + q;
  }

  lemma PrefixFound(t: string, rest: string)
    ensures Contains(t + rest, t) && After(t + rest, t) == rest
  {
    assert t <= t + rest && (t + rest)[|t|..] == rest;
  }

  /** A string contains what a piece of it contains. */
  lemma ContainsWider(p: string, s: string, q: string, t: string)
    requires Contains(s, t)
    ensures Contains(p + s + q, t)
  {
    ContainsExactly(s, t);
    var i :| 0 <= i <= |s| && t <= s[i..];
    var rest := s[i + |t|..];
    assert s[i..] == t + s[i..][|t|..];
    assert p + s + q == (p + s[..i]) + t + (rest + q);
    ContainsWithin(p + s[..i], t, rest + q);
  }

  lemma {:induction false} AfterLastOf(p: string, c: char, q: string)
    requires c !in q
    ensures AfterLast(p + [c] + q, c) == q
  {
    var s := p + [c] + q;
    if q == "" {
      assert s[|s| - 1] == c;
    } else {
      assert s[..|s| - 1] == p + [c] + q[..|q| - 1];
      assert s[|s| - 1] == q[|q| - 1] && q[|q| - 1] in q;
      AfterLastOf(p, c, q[..|q| - 1]);
    }
  }

  lemma {:induction false} BeforeFirstOf(p: string, c: char, q: string)
    requires c !in p
    ensures BeforeFirst(p + [c] + q, c) == p
  {
    var s := p + [c] + q;
    if p == "" {
      assert s[0] == c;
    } else {
      assert s[1..] == p[1..] + [c] + q;
      assert s[0] == p[0] && p[0] in p;
      BeforeFirstOf(p[1..], c, q);
    }
  }

  // ---------- stripping ----------

  lemma {:induction false} LStripPiece(s: string)
    ensures exists p :: Blank(p) && s == p + LStrip(s)
  {
    if s != "" && IsSpace(s[0]) {
      LStripPiece(s[1..]);
      var p :| Blank(p) && s[1..] == p + LStrip(s[1..]);
      assert Blank([s[0]] + p) && s == ([s[0]] + p) + LStrip(s);
    } else {
      assert Blank("") && s == "" + LStrip(s);
    }
  }

  lemma {:induction false} RStripPiece(s: string)
    ensures exists q :: Blank(q) && s == RStrip(s) + q
  {
    if s != "" && IsSpace(s[|s| - 1]) {
      RStripPiece(s[..|s| - 1]);
      var q :| Blank(q) && s[..|s| - 1] == RStrip(s[..|s| - 1]) + q;
      assert Blank(q + [s[|s| - 1]]) && s == RStrip(s) + (q + [s[|s| - 1]]);
    } else {
      assert Blank("") && s == RStrip(s) + "";
    }
  }

  /** A string is its stripped form between blanks. */
  lemma StripPiece(s: string) returns (p: string, q: string)
    ensures Blank(p) && Blank(q) && s == p + Strip(s) + q
  {
    LStripPiece(s);
    p :| Blank(p) && s == p + LStrip(s);
    RStripPiece(LStrip(s));
    q :| Blank(q) && LStrip(s) == Strip(s) + q;
  }

  /** The number of characters that are not white space. */
  function Ink(s: string): nat {
    if s == "" then 0 else Ink(s[..|s| - 1]) + if IsSpace(s[|s| - 1]) then 0 else 1
  }

  lemma {:induction false} InkConcat(a: string, b: string)
    ensures Ink(a + b) == Ink(a) + Ink(b)
  {
    if b == "" {
      assert a + b == a;
    } else {
      assert (a + b)[..|a + b| - 1] == a + b[..|b| - 1];
      InkConcat(a, b[..|b| - 1]);
    }
  }

  lemma {:induction false} InkBlank(s: string)
    ensures Ink(s) == 0 <==> Blank(s)
  {
    if s != "" {
      InkBlank(s[..|s| - 1]);
    }
  }

  lemma InkStrip(s: string)
    ensures Ink(Strip(s)) == Ink(s)
  {
    var p, q := StripPiece(s);
    InkConcat(p + Strip(s), q);
    InkConcat(p, Strip(s));
    InkBlank(p);
    InkBlank(q);
  }

  lemma {:induction false} LStripConcat(s: string, w: string)
    ensures LStrip(s + w) == if Blank(s) then LStrip(w) else LStrip(s) + w
  {
    if s == "" {
      assert s + w == w;
    } else if IsSpace(s[0]) {
      assert (s + w)[1..] == s[1..] + w;
      assert Blank(s) <==> Blank(s[1..]) by {
        assert forall i :: 0 < i < |s| ==> s[i] == s[1..][i - 1];
      }
      LStripConcat(s[1..], w);
    }
  }

  lemma {:induction false} RStripConcat(s: string, w: string)
    requires Blank(w)
    ensures RStrip(s + w) == RStrip(s)
  {
    if w == "" {
      assert s + w == s;
    } else {
      assert (s + w)[..|s + w| - 1] == s + w[..|w| - 1];
      RStripConcat(s, w[..|w| - 1]);
    }
  }

  /** Blanks at the end do not change the stripped form. */
  lemma StripTrailing(s: string, w: string)
    requires Blank(w)
    ensures Strip(s + w) == Strip(s)
  {
    LStripConcat(s, w);
    LStripConcat(s, "");
    LStripConcat(w, "");
    assert s + "" == s && w + "" == w;
    assert LStrip("") == "";
    if !Blank(s) {
      RStripConcat(LStrip(s), w);
    }
  }

  /** Text that starts and ends with a visible character. */
  predicate Trimmed(s: string) {
    s != "" && !IsSpace(s[0]) && !IsSpace(s[|s| - 1])
  }

  lemma TrimmedIsStripped(s: string)
    requires Trimmed(s)
    ensures LStrip(s) == s && Strip(s) == s
  {
  }

  // ---------- joining ----------

  lemma {:induction false} JoinTrimmed(lines: seq<string>)
    requires lines != [] && forall i :: 0 <= i < |lines| ==> Trimmed(lines[i])
    ensures Trimmed(Join(lines))
  {
    if |lines| > 1 {
      JoinTrimmed(lines[..|lines| - 1]);
    }
  }

  lemma {:induction false} JoinConcat(a: seq<string>, b: seq<string>)
    ensures Join(a + b) == if a == [] then Join(b) else if b == [] then Join(a) else Join(a) + "\n" + Join(b)
  {
    if b == [] {
      assert a + b == a;
    } else if a == [] {
      assert a + b == b;
    } else {
      assert (a + b)[..|a + b| - 1] == a + b[..|b| - 1];
      JoinConcat(a, b[..|b| - 1]);
      if |b| > 1 {
        var x, y, z := Join(a), Join(b[..|b| - 1]), b[|b| - 1];
        assert (x + "\n" + y) + "\n" + z == x + "\n" + (y + "\n" + z);
      } else {
        assert b[..0] == [];
      }
    }
  }

  lemma {:induction false} JoinBlank(lines: seq<string>)
    ensures Blank(Join(lines)) <==> AllBlank(lines)
  {
    if |lines| > 1 {
      var front, last := lines[..|lines| - 1], lines[|lines| - 1];
      JoinBlank(front);
      InkConcat(Join(front) + "\n", last);
      InkConcat(Join(front), "\n");
      InkBlank("\n");
      InkBlank(Join(front));
      InkBlank(last);
      InkBlank(Join(lines));
    }
  }

  lemma InkAppended(a: seq<string>, b: seq<string>)
    ensures Ink(Join(a + b)) == Ink(Join(a)) + Ink(Join(b))
  {
    JoinConcat(a, b);
    if a != [] && b != [] {
      InkConcat(Join(a) + "\n", Join(b));
      InkConcat(Join(a), "\n");
      InkBlank("\n");
    }
  }

  lemma StripBlank(w: string)
    requires Blank(w)
    ensures Strip(w) == ""
  {
    StripTrailing("", w);
    assert "" + w == w;
  }

  lemma StripBlankLine(s: string, w: string)
    requires Blank(w)
    ensures Strip(s + "\n" + w) == Strip(s)
  {
    StripTrailing(s, "\n" + w);
    assert s + ("\n" + w) == s + "\n" + w;
  }

  lemma BlankAppended(a: seq<string>, b: seq<string>)
    requires Blank(Join(b))
    ensures Strip(Join(a + b)) == Strip(Join(a))
  {
    JoinConcat(a, b);
    if a == [] {
      StripBlank(Join(b));
    } else if b != [] {
      StripBlankLine(Join(a), Join(b));
    }
  }

  /** Appending lines leaves the stripped text unchanged exactly when they are all blank. */
  lemma AppendedLines(a: seq<string>, b: seq<string>)
    ensures Strip(Join(a + b)) == Strip(Join(a)) <==> AllBlank(b)
  {
    JoinBlank(b);
    if Blank(Join(b)) {
      BlankAppended(a, b);
    }
    InkStrip(Join(a + b));
    InkStrip(Join(a));
    InkAppended(a, b);
    InkBlank(Join(b));
  }
}
