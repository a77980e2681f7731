/** The JavaScript string primitives the editor's table code is built from:
    `trim`, `split` on one character, `join`, `includes`, and integer-to-decimal
    conversion as a template literal performs it. Strings are sequences of code points. */
module Strings {

  /** The code points `String.prototype.trim` removes: ECMAScript WhiteSpace
      (TAB, VT, FF, SPACE, NBSP, ZWNBSP and the other Zs separators) and
      LineTerminator (LF, CR, LS, PS). */
  predicate IsJsSpace(c: char) {
    var n := c as int;
    (0x09 <= n <= 0x0D) || n == 0x20 || n == 0xA0 || n == 0x1680 || (0x2000 <= n <= 0x200A)
    || n == 0x2028 || n == 0x2029 || n == 0x202F || n == 0x205F || n == 0x3000 || n == 0xFEFF
  }

  predicate AllSpace(s: string) {
    forall i :: 0 <= i < |s| ==> IsJsSpace(s[i])
  }

  /** `s.trimStart()`: the suffix left after dropping the leading run of white space. */
  function TrimStart(s: string): (r: string)
    ensures |r| <= |s| && r == s[|s| - |r|..]
    ensures r == [] || !IsJsSpace(r[0])
    ensures forall i :: 0 <= i < |s| - |r| ==> IsJsSpace(s[i])
    decreases |s|
  {
    if |s| > 0 && IsJsSpace(s[0]) then TrimStart(s[1..]) else s
  }

  /** `s.trimEnd()`: the prefix left after dropping the trailing run of white space. */
  function TrimEnd(s: string): (r: string)
    ensures |r| <= |s| && r == s[..|r|]
    ensures r == [] || !IsJsSpace(r[|r| - 1])
    ensures forall i :: |r| <= i < |s| ==> IsJsSpace(s[i])
    decreases |s|
  {
    if |s| > 0 && IsJsSpace(s[|s| - 1]) then TrimEnd(s[..|s| - 1]) else s
  }

  /** `s.trim()`. */
  function Trim(s: string): (r: string)
    ensures |r| <= |s|
    ensures r == [] || (!IsJsSpace(r[0]) && !IsJsSpace(r[|r| - 1]))
    ensures r == [] <==> AllSpace(s)
    ensures |s| > 0 && !IsJsSpace(s[0]) && !IsJsSpace(s[|s| - 1]) ==> r == s
  {
    var t := TrimStart(s);
    assert t == [] ==> AllSpace(s);
    assert t != [] ==> !IsJsSpace(s[|s| - |t|]);
    TrimEnd(t)
  }

  lemma {:induction false} TrimStartAppend(s: string, t: string)
    ensures TrimStart(s + t) == if TrimStart(s) == [] then TrimStart(t) else TrimStart(s) + t
    decreases |s|
  {
    if |s| > 0 {
      assert (s + t)[0] == s[0];
      if IsJsSpace(s[0]) {
        assert (s + t)[1..] == s[1..] + t;
        TrimStartAppend(s[1..], t);
      }
    } else {
      assert s + t == t;
    }
  }

  /** Padding a value with one space on each side does not change what `trim` yields. */
  lemma {:induction false} TrimPadded(c: string)
    ensures Trim(" " + c + " ") == Trim(c)
  {
    TrimStartPadded(c);
    var u := TrimStart(c);
    if u != [] {
      TrimEndSpaces(u, " ");
    }
  }

  lemma {:induction false} TrimStartPadded(c: string)
    ensures TrimStart(" " + c + " ") == if TrimStart(c) == [] then [] else TrimStart(c) + " "
  {
    var p := " " + c + " ";
    assert p[1..] == c + " ";
    TrimStartAppend(c, " ");
    assert " "[1..] == [];
  }

  /** Trimming twice is trimming once. */
  lemma {:induction false} TrimIdempotent(s: string)
    ensures Trim(Trim(s)) == Trim(s)
  {
    var r := Trim(s);
    if r == [] {
      assert AllSpace(r);
    }
  }

  lemma {:induction false} TrimEndSpaces(s: string, t: string)
    requires AllSpace(t)
    ensures TrimEnd(s + t) == TrimEnd(s)
    decreases |t|
  {
    if |t| == 0 {
      assert s + t == s;
    } else {
      var u := s + t;
      assert u[|u| - 1] == t[|t| - 1];
      assert u[..|u| - 1] == s + t[..|t| - 1];
      TrimEndSpaces(s, t[..|t| - 1]);
    }
  }

  /** White space on both sides of a value whose ends are not white space is exactly what
      `trim` removes. */
  lemma {:induction false} TrimSurrounded(pre: string, s: string, post: string)
    requires AllSpace(pre) && AllSpace(post)
    requires |s| > 0 && !IsJsSpace(s[0]) && !IsJsSpace(s[|s| - 1])
    ensures Trim(pre + s + post) == s
  {
    assert pre + s + post == pre + (s + post);
    TrimStartAppend(pre, s + post);
    assert (s + post)[0] == s[0];
    assert TrimStart(s + post) == s + post;
    TrimEndSpaces(s, post);
  }

  /** `parts.join(sep)`. */
  function Join(parts: seq<string>, sep: string): (r: string)
    ensures |parts| == 1 ==> r == parts[0]
  {
    if |parts| == 0 then ""
    else if |parts| == 1 then parts[0]
    else parts[0] + sep + Join(parts[1..], sep)
  }

  lemma {:induction false} JoinNotIn(parts: seq<string>, sep: string, c: char)
    requires c !in sep
    requires forall p <- parts :: c !in p
    ensures c !in Join(parts, sep)
  {
    if |parts| > 1 {
      JoinNotIn(parts[1..], sep, c);
    }
  }

  /** A join begins with its first part and ends with its last. */
  lemma {:induction false} JoinEnds(parts: seq<string>, sep: string)
    requires |parts| >= 1
    ensures var r := Join(parts, sep);
      |parts[0]| <= |r| && r[..|parts[0]|] == parts[0]
      && |parts[|parts| - 1]| <= |r| && r[|r| - |parts[|parts| - 1]|..] == parts[|parts| - 1]
  {
    if |parts| > 1 {
      JoinEnds(parts[1..], sep);
      var rest := Join(parts[1..], sep);
      var r := parts[0] + sep + rest;
      assert r[|r| - |rest|..] == rest;
    }
  }

  /** `s.split(sep)` for a one-character separator: the maximal separator-free pieces,
      in order; joining them with the separator gives `s` back. */
  function Split(s: string, sep: char): (r: seq<string>)
    ensures |r| >= 1
    ensures forall p <- r :: sep !in p
    ensures Join(r, [sep]) == s
    decreases |s|
  {
    if |s| == 0 then [""]
    else
      var rest := Split(s[1..], sep);
      if s[0] == sep then
        assert [""] + rest == [""] + rest[..];
        assert s == [sep] + s[1..];
        [""] + rest
      else
        var r := [[s[0]] + rest[0]] + rest[1..];
        assert s == [s[0]] + s[1..];
        assert |rest| > 1 ==> Join(rest, [sep]) == rest[0] + [sep] + Join(rest[1..], [sep]);
        assert |rest| > 1 ==> r[1..] == rest[1..];
        r
  }

  lemma {:induction false} SplitNoSeparator(p: string, sep: char)
    requires sep !in p
    ensures Split(p, sep) == [p]
    decreases |p|
  {
    if |p| > 0 {
      SplitNoSeparator(p[1..], sep);
      assert p == [p[0]] + p[1..];
    }
  }

  lemma {:induction false} SplitAtFirstSeparator(p: string, sep: char, t: string)
    requires sep !in p
    ensures Split(p + [sep] + t, sep) == [p] + Split(t, sep)
    decreases |p|
  {
    var s := p + [sep] + t;
    if |p| == 0 {
      assert s[0] == sep && s[1..] == t;
    } else {
      assert s[0] == p[0] && s[1..] == p[1..] + [sep] + t;
      SplitAtFirstSeparator(p[1..], sep, t);
      assert p == [p[0]] + p[1..];
    }
  }

  /** Splitting what was joined from separator-free pieces gives the pieces back. */
  lemma {:induction false} SplitJoin(parts: seq<string>, sep: char)
    requires |parts| >= 1
    requires forall p <- parts :: sep !in p
    ensures Split(Join(parts, [sep]), sep) == parts
  {
    if |parts| == 1 {
      SplitNoSeparator(parts[0], sep);
    } else {
      SplitJoin(parts[1..], sep);
      SplitAtFirstSeparator(parts[0], sep, Join(parts[1..], [sep]));
      assert parts == [parts[0]] + parts[1..];
    }
  }

  /** The text after the last `sep` of `s`: all of `s` when there is none. */
  function LastPiece(s: string, sep: char): (l: string)
    ensures |l| <= |s| && l == s[|s| - |l|..] && sep !in l
    ensures |l| == |s| || s[|s| - |l| - 1] == sep
    ensures sep !in s ==> l == s
    ensures |s| > 0 ==> (l == [] <==> s[|s| - 1] == sep)
    decreases |s|
  {
    if |s| == 0 || s[|s| - 1] == sep then []
    else
      var l := LastPiece(s[..|s| - 1], sep);
      SuffixSnoc(s, l, sep);
      l + [s[|s| - 1]]
  }

  /** A separator-free suffix of all but the last character, extended by a last character
      that is no separator, is a separator-free suffix of the whole. */
  lemma {:induction false} SuffixSnoc(s: string, l: string, sep: char)
    requires |s| > 0 && s[|s| - 1] != sep
    requires |l| <= |s| - 1 && l == s[..|s| - 1][|s| - 1 - |l|..] && sep !in l
    requires |l| == |s| - 1 || s[..|s| - 1][|s| - 1 - |l| - 1] == sep
    requires sep !in s[..|s| - 1] ==> l == s[..|s| - 1]
    ensures var r := l + [s[|s| - 1]];
      |r| <= |s| && r == s[|s| - |r|..] && sep !in r
      && (|r| == |s| || s[|s| - |r| - 1] == sep)
      && (sep !in s ==> r == s)
  {
    var p := s[..|s| - 1];
    var k := |s| - 1 - |l|;
    assert l == s[k..|s| - 1];
    assert s[k..] == s[k..|s| - 1] + [s[|s| - 1]];
    assert sep !in s ==> sep !in p;
  }

  /** Only one suffix is separator-free and either all of `s` or after a separator. */
  lemma {:induction false} LastPieceUnique(s: string, sep: char, l: string)
    requires |l| <= |s| && l == s[|s| - |l|..] && sep !in l
    requires |l| == |s| || s[|s| - |l| - 1] == sep
    ensures l == LastPiece(s, sep)
    decreases |s|
  {
    if |s| > 0 {
      if s[|s| - 1] == sep {
        SuffixEnds(s, l);
      } else {
        var init := s[..|s| - 1];
        var l' := l[..|l| - 1];
        assert l == l' + [s[|s| - 1]];
        assert l' == init[|init| - |l'|..];
        LastPieceUnique(init, sep, l');
      }
    }
  }

  /** A non-empty suffix ends where its string ends. */
  lemma {:induction false} SuffixEnds(s: string, l: string)
    requires |l| <= |s| && l == s[|s| - |l|..]
    ensures |l| > 0 ==> l[|l| - 1] == s[|s| - 1]
  {
  }

  /** `l` is a separator-free suffix of `s` preceded by a separator or by the start. */
  predicate IsLastPiece(s: string, sep: char, l: string) {
    |l| <= |s| && l == s[|s| - |l|..] && sep !in l && (|l| == |s| || s[|s| - |l| - 1] == sep)
  }

  /** The last piece of a split is a separator-free suffix preceded by a separator or
      the start; it is the whole string exactly when there is a single piece. */
  lemma {:induction false} LastPieceOfSplit(s: string, sep: char)
    ensures var ps := Split(s, sep);
      IsLastPiece(s, sep, ps[|ps| - 1])
      && (|ps| == 1 ==> ps[|ps| - 1] == s) && (|ps| > 1 ==> |ps[|ps| - 1]| < |s|)
  {
    JoinLastPiece(Split(s, sep), sep);
  }

  /** The last of separator-free parts is the last piece of their join. */
  lemma {:induction false} JoinLastPiece(parts: seq<string>, sep: char)
    requires |parts| >= 1 && forall p <- parts :: sep !in p
    ensures var j := Join(parts, [sep]); var l := parts[|parts| - 1];
      IsLastPiece(j, sep, l) && (|parts| == 1 ==> l == j) && (|parts| > 1 ==> |l| < |j|)
  {
    if |parts| > 1 {
      var rest := parts[1..];
      assert forall p <- rest :: sep !in p by {
        forall p | p in rest ensures sep !in p {
          assert p in parts;
        }
      }
      JoinLastPiece(rest, sep);
      assert parts[|parts| - 1] == rest[|rest| - 1];
      AfterSeparator(parts[0], sep, Join(rest, [sep]), rest[|rest| - 1]);
    }
  }

  /** A last piece of `t` stays the last piece behind a separator. */
  lemma {:induction false} AfterSeparator(a: string, sep: char, t: string, l: string)
    requires IsLastPiece(t, sep, l)
    ensures IsLastPiece(a + [sep] + t, sep, l) && |l| < |a + [sep] + t|
  {
    var j := a + [sep] + t;
    assert j[|j| - |l|..] == t[|t| - |l|..];
    if |l| < |t| {
      assert j[|j| - |l| - 1] == t[|t| - |l| - 1];
    } else {
      assert j[|j| - |l| - 1] == sep;
    }
  }

  /** A string not ending in the separator has a non-empty last piece. */
  lemma {:induction false} LastPieceNonEmpty(s: string, sep: char)
    requires |s| > 0 && s[|s| - 1] != sep
    ensures LastPiece(s, sep) != "" && IsLastPiece(s, sep, LastPiece(s, sep))
  {
  }

  /** `s.split(sep).pop()` is the last piece. */
  lemma {:induction false} LastPieceIsPop(s: string, sep: char)
    ensures var ps := Split(s, sep); ps[|ps| - 1] == LastPiece(s, sep)
  {
    var ps := Split(s, sep);
    var l := ps[|ps| - 1];
    LastPieceOfSplit(s, sep);
    assert IsLastPiece(s, sep, l);
    IsLastPieceUnique(s, sep, l);
  }

  lemma {:induction false} IsLastPieceUnique(s: string, sep: char, l: string)
    requires IsLastPiece(s, sep, l)
    ensures l == LastPiece(s, sep)
  {
    LastPieceUnique(s, sep, l);
  }

  predicate StartsWith(s: string, prefix: string) {
    |prefix| <= |s| && s[..|prefix|] == prefix
  }

  /** `s.includes(sub)`. */
  predicate Contains(s: string, sub: string)
    decreases |s|
  {
    StartsWith(s, sub) || (|s| > 0 && Contains(s[1..], sub))
  }

  lemma {:induction false} ContainsAt(s: string, i: nat, sub: string)
    requires i + |sub| <= |s| && s[i..i + |sub|] == sub
    ensures Contains(s, sub)
    decreases i
  {
    if i > 0 {
      assert s[1..][i - 1..i - 1 + |sub|] == sub;
      ContainsAt(s[1..], i - 1, sub);
    }
  }

  function DigitChar(d: nat): (c: char)
    requires d < 10
    ensures '0' <= c <= '9' && c as int - '0' as int == d
  {
    "0123456789"[d]
  }

  /** The decimal digits of `n`, most significant first, with no leading zero. */
  function NatToString(n: nat): (r: string)
    ensures |r| >= 1
    ensures forall i :: 0 <= i < |r| ==> '0' <= r[i] <= '9'
    ensures |r| > 1 ==> r[0] != '0'
    decreases n
  {
    if n < 10 then [DigitChar(n)] else NatToString(n / 10) + [DigitChar(n % 10)]
  }

  /** The value the decimal digits of `s` denote. */
  function DigitsValue(s: string): int {
    if |s| == 0 then 0 else 10 * DigitsValue(s[..|s| - 1]) + (s[|s| - 1] as int - '0' as int)
  }

  lemma {:induction false} NatToStringValue(n: nat)
    ensures DigitsValue(NatToString(n)) == n
    decreases n
  {
    if n >= 10 {
      NatToStringValue(n / 10);
      var s := NatToString(n);
      assert s[..|s| - 1] == NatToString(n / 10);
    }
  }

  /** An integer as `${n}` writes it: an optional minus sign, then its decimal digits. */
  function IntToString(n: int): (r: string)
    ensures |r| >= 1
    ensures r[0] == '-' <==> n < 0
  {
    if n < 0 then "-" + NatToString(-n) else NatToString(n)
  }
}
