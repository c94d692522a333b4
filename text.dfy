/** The JavaScript string operations the script uses: `trim`, `toLowerCase`,
    `toUpperCase` of one character, `join`, and the decimal text of an integer. */
module Text {

  /** The code points `String.prototype.trim` removes: ECMAScript WhiteSpace and LineTerminator. */
  predicate IsWhitespace(c: char)
  {
    || c == ' ' || c == '\t' || c == '\n' || c == '\r' || c == '\U{0B}' || c == '\U{0C}'
    || c == '\U{A0}' || c == '\U{1680}' || ('\U{2000}' <= c <= '\U{200A}')
    || c == '\U{2028}' || c == '\U{2029}' || c == '\U{202F}' || c == '\U{205F}'
    || c == '\U{3000}' || c == '\U{FEFF}'
  }

  predicate AllWhitespace(s: string)
  {
    forall k :: 0 <= k < |s| ==> IsWhitespace(s[k])
  }

  /** `s` with its leading whitespace removed. */
  function TrimStart(s: string): (r: string)
    ensures |r| <= |s|
  {
    if s != [] && IsWhitespace(s[0]) then TrimStart(s[1..]) else s
  }

  /** `s` with its trailing whitespace removed. */
  function TrimEnd(s: string): (r: string)
    ensures |r| <= |s|
  {
    if s != [] && IsWhitespace(s[|s| - 1]) then TrimEnd(s[..|s| - 1]) else s
  }

  /** TrimStart drops a whitespace prefix and stops at the first other character. */
  lemma {:induction false} TrimStartSpec(s: string)
    ensures var r := TrimStart(s);
      && r == s[|s| - |r|..]
      && AllWhitespace(s[..|s| - |r|])
      && (r != [] ==> !IsWhitespace(r[0]))
  {
    if s != [] && IsWhitespace(s[0]) {
      TrimStartSpec(s[1..]);
      var r := TrimStart(s);
      assert s[..|s| - |r|] == [s[0]] + s[1..][..|s| - 1 - |r|];
    }
  }

  /** TrimEnd drops a whitespace suffix and stops at the last other character. */
  lemma {:induction false} TrimEndSpec(s: string)
    ensures var r := TrimEnd(s);
      && r == s[..|r|]
      && AllWhitespace(s[|r|..])
      && (r != [] ==> !IsWhitespace(r[|r| - 1]))
  {
    if s != [] && IsWhitespace(s[|s| - 1]) {
      var init := s[..|s| - 1];
      TrimEndSpec(init);
      var r := TrimEnd(s);
      assert s[|r|..] == init[|r|..] + [s[|s| - 1]];
    }
  }

  /** `String.prototype.trim`: whitespace dropped at both ends. */
  function Trim(s: string): (r: string)
    ensures |r| <= |s|
  {
    TrimEnd(TrimStart(s))
  }

  /** A trimmed string neither starts nor ends with whitespace. */
  lemma TrimmedEnds(s: string)
    ensures var r := Trim(s); r != [] ==> !IsWhitespace(r[0]) && !IsWhitespace(r[|r| - 1])
  {
    var t := TrimStart(s);
    TrimStartSpec(s);
    TrimEndSpec(t);
    var r := TrimEnd(t);
    assert r != [] ==> r[0] == t[0];
  }

  /** Trimming cuts only whitespace, from the two ends: `Trim(s)` sits in `s` at offset
      `lead` with whitespace before and after it, and it is empty exactly when `s` is
      all whitespace. */
  lemma TrimIsInnerSlice(s: string)
    ensures var r, lead := Trim(s), |s| - |TrimStart(s)|;
      && lead + |r| <= |s|
      && r == s[lead..lead + |r|]
      && AllWhitespace(s[..lead])
      && AllWhitespace(s[lead + |r|..])
      && (r == [] <==> AllWhitespace(s))
  {
    var t := TrimStart(s);
    var r := TrimEnd(t);
    assert t == s[|s| - |t|..] && AllWhitespace(s[..|s| - |t|]) by {
      TrimStartSpec(s);
    }
    assert r == t[..|r|] && AllWhitespace(t[|r|..]) by {
      TrimEndSpec(t);
    }
    assert r != [] ==> !IsWhitespace(r[0]) by {
      TrimmedEnds(s);
    }
    InnerSlice(s, |s| - |t|, t, r);
  }

  /** `r`, a prefix of the suffix `t` of `s`, with whitespace cut on both sides. */
  lemma InnerSlice(s: string, lead: nat, t: string, r: string)
    requires lead <= |s| && t == s[lead..] && AllWhitespace(s[..lead])
    requires |r| <= |t| && r == t[..|r|] && AllWhitespace(t[|r|..])
    requires r != [] ==> !IsWhitespace(r[0])
    ensures lead + |r| <= |s| && r == s[lead..lead + |r|]
    ensures AllWhitespace(s[lead + |r|..])
    ensures r == [] <==> AllWhitespace(s)
  {
    assert s[lead..lead + |r|] == t[..|r|];
    assert s[lead + |r|..] == t[|r|..];
    if r == [] {
      forall k | 0 <= k < |s| ensures IsWhitespace(s[k]) {
        if k < lead {
          assert s[k] == s[..lead][k];
        } else {
          assert s[k] == t[k - lead];
        }
      }
    } else {
      assert s[lead] == r[0];
    }
  }

  /** Trimming twice is trimming once. */
  lemma TrimIdempotent(s: string)
    ensures Trim(Trim(s)) == Trim(s)
  {
    TrimmedEnds(s);
    TrimOfTrimmed(Trim(s));
  }

  /** Whitespace added around a string disappears again when it is trimmed. */
  lemma {:induction false} TrimIgnoresPadding(w1: string, s: string, w2: string)
    requires AllWhitespace(w1) && AllWhitespace(w2)
    ensures Trim(w1 + s + w2) == Trim(s)
  {
    var t := TrimStart(s);
    assert TrimStart(w1 + s + w2) == TrimStart(s + w2) by {
      assert w1 + s + w2 == w1 + (s + w2);
      TrimStartPadded(w1, s + w2);
    }
    if t == [] {
      assert TrimStart(s + w2) == [] by {
        TrimStartAppend(s, w2);
        TrimStartPadded(w2, []);
        assert w2 + [] == w2;
      }
    } else {
      assert TrimStart(s + w2) == t + w2 by {
        TrimStartAppend(s, w2);
      }
      assert TrimEnd(t + w2) == TrimEnd(t) by {
        TrimEndPadded(t, w2);
      }
    }
  }

  lemma {:induction false} TrimStartPadded(w: string, s: string)
    requires AllWhitespace(w)
    ensures TrimStart(w + s) == TrimStart(s)
  {
    if w != [] {
      assert (w + s)[1..] == w[1..] + s;
      TrimStartPadded(w[1..], s);
    } else {
      assert w + s == s;
    }
  }

  lemma {:induction false} TrimStartAppend(s: string, w: string)
    requires AllWhitespace(w)
    ensures TrimStart(s) != [] ==> TrimStart(s + w) == TrimStart(s) + w
    ensures TrimStart(s) == [] ==> TrimStart(s + w) == TrimStart(w)
  {
    if s == [] {
      assert s + w == w;
    } else if IsWhitespace(s[0]) {
      assert (s + w)[1..] == s[1..] + w;
      TrimStartAppend(s[1..], w);
    } else {
      assert (s + w)[0] == s[0];
    }
  }

  lemma {:induction false} TrimEndPadded(s: string, w: string)
    requires AllWhitespace(w)
    ensures TrimEnd(s + w) == TrimEnd(s)
  {
    if w != [] {
      assert (s + w)[..|s + w| - 1] == s + w[..|w| - 1];
      TrimEndPadded(s, w[..|w| - 1]);
    } else {
      assert s + w == s;
    }
  }

  /** `toLowerCase` of one character (ASCII letters; every other character is kept). */
  function LowerChar(c: char): char
  {
    if 'A' <= c <= 'Z' then c - 'A' + 'a' else c
  }

  /** `toUpperCase` of one character (ASCII letters; every other character is kept). */
  function UpperChar(c: char): char
  {
    if 'a' <= c <= 'z' then c - 'a' + 'A' else c
  }

  /** Case mapping leaves whitespace alone and makes no new whitespace. */
  lemma CaseKeepsWhitespace(c: char)
    ensures IsWhitespace(LowerChar(c)) <==> IsWhitespace(c)
    ensures IsWhitespace(UpperChar(c)) <==> IsWhitespace(c)
  {
  }

  /** A string with no whitespace at either end is its own trim. */
  lemma TrimOfTrimmed(s: string)
    requires s != [] ==> !IsWhitespace(s[0]) && !IsWhitespace(s[|s| - 1])
    ensures Trim(s) == s
  {
    assert TrimStart(s) == s;
    assert TrimEnd(s) == s;
  }

  /** `String.prototype.toLowerCase`, character by character. */
  function ToLower(s: string): (r: string)
    ensures |r| == |s|
    ensures forall k :: 0 <= k < |s| ==> r[k] == LowerChar(s[k])
  {
    seq(|s|, k requires 0 <= k < |s| => LowerChar(s[k]))
  }

  /** `String.prototype.toUpperCase`, character by character. */
  function ToUpper(s: string): (r: string)
    ensures |r| == |s|
    ensures forall k :: 0 <= k < |s| ==> r[k] == UpperChar(s[k])
  {
    seq(|s|, k requires 0 <= k < |s| => UpperChar(s[k]))
  }

  /** `xs.join(sep)`. */
  function Join(xs: seq<string>, sep: string): string
  {
    if xs == [] then ""
    else if |xs| == 1 then xs[0]
    else xs[0] + sep + Join(xs[1..], sep)
  }

  /** Where the k-th piece starts in `Join(xs, sep)`. */
  function PieceOffset(xs: seq<string>, sep: string, k: nat): nat
    requires k <= |xs|
  {
    if k == 0 then 0 else |xs[0]| + |sep| + PieceOffset(xs[1..], sep, k - 1)
  }

  /** The joined string is as long as the last piece's offset plus that piece. */
  lemma {:induction false} JoinLength(xs: seq<string>, sep: string)
    requires xs != []
    ensures |Join(xs, sep)| == PieceOffset(xs, sep, |xs| - 1) + |xs[|xs| - 1]|
  {
    if |xs| > 1 {
      JoinLength(xs[1..], sep);
      assert xs[1..][|xs| - 2] == xs[|xs| - 1];
    }
  }

  /** Each piece but the last is followed by one separator and then the next piece. */
  lemma {:induction false} PieceOffsetStep(xs: seq<string>, sep: string, k: nat)
    requires k < |xs|
    ensures PieceOffset(xs, sep, k + 1) == PieceOffset(xs, sep, k) + |xs[k]| + |sep|
  {
    if k > 0 {
      PieceOffsetStep(xs[1..], sep, k - 1);
      assert xs[1..][k - 1] == xs[k];
    }
  }

  /** Piece k of `Join(xs, sep)` sits, unchanged, at `PieceOffset(xs, sep, k)`. */
  lemma {:induction false} JoinPiece(xs: seq<string>, sep: string, k: nat)
    requires k < |xs|
    ensures var o := PieceOffset(xs, sep, k);
      o + |xs[k]| <= |Join(xs, sep)| && Join(xs, sep)[o..o + |xs[k]|] == xs[k]
  {
    var j := Join(xs, sep);
    if k == 0 {
      if |xs| > 1 { assert j == xs[0] + sep + Join(xs[1..], sep); }
      assert j[0..|xs[0]|] == xs[0];
    } else {
      var tail := xs[1..];
      var jt := Join(tail, sep);
      JoinPiece(tail, sep, k - 1);
      assert j == xs[0] + sep + jt;
      var o := PieceOffset(xs, sep, k);
      var ot := PieceOffset(tail, sep, k - 1);
      assert o == |xs[0]| + |sep| + ot;
      assert tail[k - 1] == xs[k];
      assert j[o..o + |xs[k]|] == jt[ot..ot + |xs[k]|];
    }
  }

  /** Right before every piece but the first stands exactly one separator. */
  lemma {:induction false} JoinSeparator(xs: seq<string>, sep: string, k: nat)
    requires 0 < k < |xs|
    ensures var o := PieceOffset(xs, sep, k);
      |sep| <= o <= |Join(xs, sep)| && Join(xs, sep)[o - |sep|..o] == sep
  {
    var j := Join(xs, sep);
    var tail := xs[1..];
    var jt := Join(tail, sep);
    assert j == xs[0] + sep + jt;
    var o := PieceOffset(xs, sep, k);
    var ot := PieceOffset(tail, sep, k - 1);
    assert o == |xs[0]| + |sep| + ot;
    JoinPiece(tail, sep, k - 1);
    if k == 1 {
      assert j[o - |sep|..o] == sep;
    } else {
      JoinSeparator(tail, sep, k - 1);
      assert j[o - |sep|..o] == jt[ot - |sep|..ot];
    }
  }

  /** The decimal digit for 0..9. */
  function DigitChar(d: nat): char
    requires d < 10
  {
    '0' + d as char
  }

  predicate AllDigits(s: string)
  {
    forall k :: 0 <= k < |s| ==> '0' <= s[k] <= '9'
  }

  /** `Number.prototype.toString()` of a non-negative integer. */
  function NatToString(n: nat): (r: string)
    ensures r != []
    ensures AllDigits(r)
  {
    if n < 10 then [DigitChar(n)] else NatToString(n / 10) + [DigitChar(n % 10)]
  }

  /** `Number.prototype.toString()` of an integer: a minus sign before negative numbers. */
  function IntToString(n: int): string
  {
    if n < 0 then "-" + NatToString(-n) else NatToString(n)
  }

  /** The value of a string of decimal digits. */
  function DigitsValue(s: string): nat
    requires AllDigits(s)
  {
    if s == [] then 0 else 10 * DigitsValue(s[..|s| - 1]) + (s[|s| - 1] - '0') as nat
  }

  /** Reading back the digits of `NatToString(n)` gives `n`. */
  lemma {:induction false} NatToStringRoundTrip(n: nat)
    ensures DigitsValue(NatToString(n)) == n
  {
    if n >= 10 {
      NatToStringRoundTrip(n / 10);
      var s := NatToString(n);
      assert s[..|s| - 1] == NatToString(n / 10);
    }
  }

  /** `s.padStart(width, fill)`. */
  function PadStart(s: string, width: nat, fill: char): (r: string)
    ensures |r| == if |s| >= width then |s| else width
    ensures r[|r| - |s|..] == s
    ensures forall k :: 0 <= k < |r| - |s| ==> r[k] == fill
  {
    if |s| >= width then s else seq(width - |s|, _ => fill) + s
  }
}
