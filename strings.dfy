/**
  The JavaScript string operations the parsers rely on, with their ECMAScript meaning:
  the `\s` class (which is also what `trim` strips), `trim`, `replace(/\s+/g, " ")`,
  `join`, `split`, `replace(/\r\n/g, "\n")`, `startsWith`, `includes`, ASCII case folding,
  decimal digits and `Number(...)` on attribute strings.
 */
module Strings {
  import opened Common

  /** JavaScript's `\s`: WhiteSpace plus LineTerminator; `trim` strips the same set. */
  predicate IsSpace(c: char) {
    var k := c as int;
    (9 <= k <= 13) || k == 32 || (k >= 0xA0 && IsWideSpace(k))
  }

  /** The whitespace code points beyond ASCII: no-break space, ogham space mark, the typographic spaces, separators, BOM. */
  predicate IsWideSpace(k: int) {
    k == 0xA0 || k == 0x1680 || (0x2000 <= k <= 0x200A) || k == 0x2028
    || k == 0x2029 || k == 0x202F || k == 0x205F || k == 0x3000 || k == 0xFEFF
  }

  predicate AllSpace(s: string) {
    forall k | 0 <= k < |s| :: IsSpace(s[k])
  }

  /** Neither the first nor the last character is whitespace: a fixed point of `trim`. */
  predicate NoEdgeSpace(s: string) {
    s == [] || (!IsSpace(s[0]) && !IsSpace(s[|s| - 1]))
  }

  /** Every whitespace character is a plain space and no two whitespace characters are adjacent. */
  ghost predicate Collapsed(s: string) {
    (forall k | 0 <= k < |s| && IsSpace(s[k]) :: s[k] == ' ')
    && forall i, j | 0 <= i < j < |s| && j == i + 1 :: !IsSpace(s[i]) || !IsSpace(s[j])
  }

  /** What `trim()` followed by `replace(/\s+/g, " ")` leaves: no edge spaces, single spaces inside. */
  ghost predicate IsNormalized(s: string) {
    NoEdgeSpace(s) && Collapsed(s)
  }

  /** The length of the whitespace run that starts `s`. */
  function LeadingSpaces(s: string): (n: nat)
    ensures n <= |s|
    ensures forall k | 0 <= k < n :: IsSpace(s[k])
    ensures n < |s| ==> !IsSpace(s[n])
  {
    if s == [] || !IsSpace(s[0]) then 0 else 1 + LeadingSpaces(s[1..])
  }

  /** The length of the whitespace run that ends `s`. */
  function TrailingSpaces(s: string): (n: nat)
    ensures n <= |s|
    ensures forall k | |s| - n <= k < |s| :: IsSpace(s[k])
    ensures n < |s| ==> !IsSpace(s[|s| - 1 - n])
  {
    if s == [] || !IsSpace(s[|s| - 1]) then 0 else 1 + TrailingSpaces(s[..|s| - 1])
  }

  /** The characters of `s` that are not whitespace, in order: what whitespace edits must keep. */
  function NonSpace(s: string): (r: string)
    ensures |r| <= |s|
    ensures forall k | 0 <= k < |r| :: !IsSpace(r[k])
  {
    if s == [] then [] else (if IsSpace(s[0]) then [] else [s[0]]) + NonSpace(s[1..])
  }

  lemma {:induction false} NonSpaceAppend(a: string, b: string)
    ensures NonSpace(a + b) == NonSpace(a) + NonSpace(b)
    decreases |a|
  {
    if a == [] {
      assert a + b == b;
    } else {
      assert (a + b)[1..] == a[1..] + b;
      NonSpaceAppend(a[1..], b);
    }
  }

  lemma NonSpaceCons(c: char, t: string)
    ensures NonSpace([c] + t) == (if IsSpace(c) then [] else [c]) + NonSpace(t)
  {
    assert ([c] + t)[1..] == t;
  }

  lemma {:induction false} NonSpaceOfSpaces(s: string)
    requires AllSpace(s)
    ensures NonSpace(s) == []
    decreases |s|
  {
    if s != [] {
      NonSpaceOfSpaces(s[1..]);
    }
  }

  /** `String.prototype.trim`: the slice of `s` between its leading and trailing whitespace runs. */
  function Trim(s: string): (r: string)
    ensures LeadingSpaces(s) + |r| <= |s|
    ensures r == s[LeadingSpaces(s)..LeadingSpaces(s) + |r|]
    ensures forall k | LeadingSpaces(s) + |r| <= k < |s| :: IsSpace(s[k])
    ensures NoEdgeSpace(r)
    ensures r == [] <==> AllSpace(s)
    ensures NoEdgeSpace(s) ==> r == s
  {
    var a := LeadingSpaces(s);
    var t := s[a..];
    t[..|t| - TrailingSpaces(t)]
  }

  /** Whitespace around a string adds no character to what `NonSpace` keeps. */
  lemma NonSpaceBetweenSpaces(front: string, mid: string, back: string)
    requires AllSpace(front) && AllSpace(back)
    ensures NonSpace(front + mid + back) == NonSpace(mid)
  {
    NonSpaceOfSpaces(front);
    NonSpaceOfSpaces(back);
    NonSpaceAppend(front, mid);
    NonSpaceAppend(front + mid, back);
  }

  /** `s` is its leading whitespace, its trimmed text and its trailing whitespace, in that order. */
  lemma TrimSplits(s: string) returns (front: string, back: string)
    ensures s == front + Trim(s) + back
    ensures AllSpace(front) && AllSpace(back)
  {
    var r := Trim(s);
    var a := LeadingSpaces(s);
    var e := a + |r|;
    front, back := s[..a], s[e..];
    assert s == front + r + back by {
      assert r == s[a..e];
    }
    SpaceSlice(s, 0, a);
    SpaceSlice(s, e, |s|);
  }

  lemma SpaceSlice(s: string, i: nat, j: nat)
    requires i <= j <= |s| && forall k | i <= k < j :: IsSpace(s[k])
    ensures AllSpace(s[i..j])
  {
    assert forall k | 0 <= k < j - i :: s[i..j][k] == s[i + k];
  }

  /** Trimming removes whitespace only: every other character is kept, in order. */
  lemma TrimKeepsText(s: string)
    ensures NonSpace(Trim(s)) == NonSpace(s)
  {
    var front, back := TrimSplits(s);
    NonSpaceBetweenSpaces(front, Trim(s), back);
  }

  /**
    `replace(/\s+/g, " ")` scanned left to right: a whitespace character becomes a plain space
    unless the previous character was whitespace too, in which case it is dropped.
   */
  function CollapseFrom(s: string, afterSpace: bool): (r: string)
    ensures Collapsed(r)
    ensures afterSpace ==> (r == [] <==> AllSpace(s)) && (r != [] ==> !IsSpace(r[0]))
    ensures !afterSpace ==> (AllSpace(r) <==> AllSpace(s)) && (s != [] ==> r != [] && (IsSpace(r[0]) <==> IsSpace(s[0])))
    decreases |s|
  {
    if s == [] then []
    else if IsSpace(s[0]) then
      var rest := CollapseFrom(s[1..], true);
      var r := (if afterSpace then [] else [' ']) + rest;
      assert AllSpace(s) <==> AllSpace(s[1..]);
      assert !afterSpace ==> r[1..] == rest;
      r
    else
      var rest := CollapseFrom(s[1..], false);
      var r := [s[0]] + rest;
      assert r[1..] == rest;
      r
  }

  function CollapseSpaces(s: string): (r: string)
    ensures Collapsed(r)
    ensures AllSpace(r) <==> AllSpace(s)
    ensures s != [] ==> r != [] && (IsSpace(r[0]) <==> IsSpace(s[0]))
  {
    CollapseFrom(s, false)
  }

  /** Whether the scan is after whitespace once `s` has been read, starting in state `afterSpace`. */
  function EndsInSpace(s: string, afterSpace: bool): bool {
    if s == [] then afterSpace else IsSpace(s[|s| - 1])
  }

  /** Collapsing works character by character: the second half continues in the state the first left. */
  lemma {:induction false} CollapseAppend(a: string, b: string, afterSpace: bool)
    ensures CollapseFrom(a + b, afterSpace) == CollapseFrom(a, afterSpace) + CollapseFrom(b, EndsInSpace(a, afterSpace))
    decreases |a|
  {
    if a == [] {
      assert a + b == b;
    } else {
      assert (a + b)[0] == a[0] && (a + b)[1..] == a[1..] + b;
      CollapseAppend(a[1..], b, IsSpace(a[0]));
      assert EndsInSpace(a[1..], IsSpace(a[0])) == EndsInSpace(a, afterSpace);
      var head := if IsSpace(a[0]) then (if afterSpace then [] else [' ']) else [a[0]];
      assert CollapseFrom(a, afterSpace) == head + CollapseFrom(a[1..], IsSpace(a[0]));
      AppendAssoc(head, CollapseFrom(a[1..], IsSpace(a[0])), CollapseFrom(b, EndsInSpace(a, afterSpace)));
    }
  }

  /** A string that ends in a non-space collapses to one that does too. */
  lemma CollapseLast(s: string)
    requires s != [] && !IsSpace(s[|s| - 1])
    ensures CollapseSpaces(s) != [] && !IsSpace(CollapseSpaces(s)[|CollapseSpaces(s)| - 1])
  {
    var p, c := s[..|s| - 1], [s[|s| - 1]];
    assert s == p + c;
    CollapseAppend(p, c, false);
    assert CollapseFrom(c, EndsInSpace(p, false)) == c by {
      assert c[1..] == [];
    }
  }

  /** Collapsing replaces whitespace only: every other character is kept, in order. */
  lemma {:induction false} CollapseKeepsText(s: string, afterSpace: bool)
    ensures NonSpace(CollapseFrom(s, afterSpace)) == NonSpace(s)
    decreases |s|
  {
    if s != [] {
      CollapseKeepsText(s[1..], IsSpace(s[0]));
      var rest := CollapseFrom(s[1..], IsSpace(s[0]));
      NonSpaceCons(s[0], s[1..]);
      assert [s[0]] + s[1..] == s;
      if IsSpace(s[0]) {
        if afterSpace {
          assert CollapseFrom(s, afterSpace) == rest;
        } else {
          NonSpaceCons(' ', rest);
        }
      } else {
        NonSpaceCons(s[0], rest);
      }
    }
  }

  /** A collapsed string is left alone by `replace(/\s+/g, " ")`. */
  lemma CollapseIdentity(s: string)
    requires Collapsed(s)
    ensures CollapseSpaces(s) == s
  {
    CollapseFromIdentity(s, false);
  }

  lemma {:induction false} CollapseFromIdentity(s: string, afterSpace: bool)
    requires Collapsed(s) && (afterSpace ==> s == [] || !IsSpace(s[0]))
    ensures CollapseFrom(s, afterSpace) == s
    decreases |s|
  {
    if s != [] {
      var t := s[1..];
      assert Collapsed(t) by {
        forall k | 0 <= k < |t| && IsSpace(t[k])
          ensures t[k] == ' '
        {
          assert t[k] == s[k + 1];
        }
        forall i, j | 0 <= i < j < |t| && j == i + 1
          ensures !IsSpace(t[i]) || !IsSpace(t[j])
        {
          assert t[i] == s[i + 1] && t[j] == s[j + 1];
        }
      }
      if IsSpace(s[0]) {
        assert t != [] ==> t[0] == s[1];
      }
      CollapseFromIdentity(t, IsSpace(s[0]));
      assert [s[0]] + t == s;
    }
  }

  /** The normalisation a segmented question receives: collapse whitespace runs, then trim. */
  function Normalize(s: string): (r: string)
    ensures IsNormalized(r)
    ensures NonSpace(r) == NonSpace(s)
    ensures r == [] <==> AllSpace(s)
  {
    var c := CollapseSpaces(s);
    var r := Trim(c);
    var a := LeadingSpaces(c);
    assert Collapsed(r) by {
      forall k | 0 <= k < |r| && IsSpace(r[k])
        ensures r[k] == ' ' && (k + 1 < |r| ==> !IsSpace(r[k + 1]))
      {
        assert r[k] == c[a + k];
        assert k + 1 < |r| ==> r[k + 1] == c[a + k + 1];
      }
    }
    CollapseKeepsText(s, false);
    TrimKeepsText(c);
    r
  }

  /**
    Text that starts with a word keeps that word, collapsed, at the front of its normalisation:
    normalising `first + rest`, where `first` has no whitespace at either end, begins with the
    normalisation of `first`.
   */
  lemma NormalizeStartsWith(first: string, rest: string)
    requires first != [] && NoEdgeSpace(first)
    ensures Normalize(first) <= Normalize(first + rest)
  {
    var cf := CollapseSpaces(first);
    CollapseLast(first);
    CollapseAppend(first, rest, false);
    assert NoEdgeSpace(cf);
    TrimKeepsFront(cf, CollapseFrom(rest, false));
  }

  /** Trimming a string that starts with a word without edge whitespace keeps that word in front. */
  lemma TrimKeepsFront(x: string, y: string)
    requires x != [] && NoEdgeSpace(x)
    ensures x <= Trim(x + y)
  {
    var c := x + y;
    var r := Trim(c);
    assert LeadingSpaces(c) == 0 by {
      assert c[0] == x[0];
    }
    assert !IsSpace(c[|x| - 1]);
    assert |x| <= |r|;
    assert r[..|x|] == c[..|x|] == x;
  }

  /** An already normalised string is its own normalisation. */
  lemma NormalizeIdentity(s: string)
    requires IsNormalized(s)
    ensures Normalize(s) == s
  {
    CollapseIdentity(s);
  }

  /** `parts.join(sep)`. */
  function Join(parts: seq<string>, sep: string): string {
    if |parts| == 0 then ""
    else if |parts| == 1 then parts[0]
    else parts[0] + sep + Join(parts[1..], sep)
  }

  /** The pieces written one after the other, with nothing between them. */
  function Concat(parts: seq<string>): string {
    if parts == [] then "" else parts[0] + Concat(parts[1..])
  }

  lemma {:induction false} ConcatAppend(a: seq<string>, b: seq<string>)
    ensures Concat(a + b) == Concat(a) + Concat(b)
    decreases |a|
  {
    if a == [] {
      assert a + b == b;
    } else {
      assert (a + b)[1..] == a[1..] + b;
      ConcatAppend(a[1..], b);
    }
  }

  /** Joining with a whitespace separator adds no character that is not whitespace. */
  lemma {:induction false} JoinKeepsText(parts: seq<string>, sep: string)
    requires AllSpace(sep)
    ensures NonSpace(Join(parts, sep)) == NonSpace(Concat(parts))
    decreases |parts|
  {
    if |parts| == 1 {
      assert Concat(parts) == parts[0] + Concat(parts[1..]);
      assert parts[0] + [] == parts[0];
    } else if |parts| > 1 {
      JoinKeepsText(parts[1..], sep);
      NonSpaceBetweenSpaces([], parts[0] + sep, []);
      NonSpaceAppend(parts[0] + sep, Join(parts[1..], sep));
      NonSpaceAppend(parts[0], sep);
      NonSpaceOfSpaces(sep);
      NonSpaceAppend(parts[0], Concat(parts[1..]));
    }
  }

  /** `s.split(sep)` for a one-character separator: always at least one piece, none containing `sep`. */
  function Split(s: string, sep: char): (r: seq<string>)
    ensures |r| >= 1
    ensures forall k | 0 <= k < |r| :: sep !in r[k]
  {
    if s == [] then [""]
    else
      var rest := Split(s[1..], sep);
      if s[0] == sep then [""] + rest else [[s[0]] + rest[0]] + rest[1..]
  }

  /** `split` and `join` on the same separator are inverse: no character is lost or added. */
  lemma {:induction false} JoinSplit(s: string, sep: char)
    ensures Join(Split(s, sep), [sep]) == s
  {
    if s != [] {
      var rest := Split(s[1..], sep);
      JoinSplit(s[1..], sep);
      if s[0] == sep {
        assert ([""] + rest)[1..] == rest;
      } else {
        var r := [[s[0]] + rest[0]] + rest[1..];
        assert r[1..] == rest[1..];
        if |rest| > 1 {
          assert Join(rest, [sep]) == rest[0] + [sep] + Join(rest[1..], [sep]);
        }
      }
    }
  }

  /** `replace(/\r\n/g, "\n")`: each CR LF pair, scanning left to right, becomes a single LF. */
  function NormalizeNewlines(s: string): (r: string)
    ensures |r| <= |s|
    ensures '\r' !in s ==> r == s
    decreases |s|
  {
    if |s| >= 2 && s[0] == '\r' && s[1] == '\n' then "\n" + NormalizeNewlines(s[2..])
    else if s == [] then []
    else [s[0]] + NormalizeNewlines(s[1..])
  }

  /** Rewriting CR LF as LF removes whitespace only. */
  lemma {:induction false} NormalizeNewlinesKeepsText(s: string)
    ensures NonSpace(NormalizeNewlines(s)) == NonSpace(s)
    decreases |s|
  {
    if |s| >= 2 && s[0] == '\r' && s[1] == '\n' {
      NormalizeNewlinesKeepsText(s[2..]);
      NonSpaceCons('\n', NormalizeNewlines(s[2..]));
      assert s == ['\r'] + (['\n'] + s[2..]);
      NonSpaceCons('\r', ['\n'] + s[2..]);
      NonSpaceCons('\n', s[2..]);
    } else if s != [] {
      NormalizeNewlinesKeepsText(s[1..]);
      NonSpaceCons(s[0], NormalizeNewlines(s[1..]));
      NonSpaceCons(s[0], s[1..]);
      assert [s[0]] + s[1..] == s;
    }
  }

  /** Text without a CR passes through unchanged, and rewriting resumes right after it. */
  lemma {:induction false} NormalizeNewlinesPlainPrefix(a: string, b: string)
    requires '\r' !in a
    ensures NormalizeNewlines(a + b) == a + NormalizeNewlines(b)
    decreases |a|
  {
    if a != [] {
      assert (a + b)[0] == a[0];
      assert (a + b)[1..] == a[1..] + b;
      assert a[0] in a;
      NormalizeNewlinesPlainPrefix(a[1..], b);
      assert [a[0]] + a[1..] == a;
    } else {
      assert a + b == b;
    }
  }

  /** Lines without a CR joined by CR LF come out joined by LF: each CR LF becomes exactly one LF. */
  lemma {:induction false} NormalizeNewlinesOfJoin(lines: seq<string>)
    requires forall k | 0 <= k < |lines| :: '\r' !in lines[k]
    ensures NormalizeNewlines(Join(lines, "\r\n")) == Join(lines, "\n")
    decreases |lines|
  {
    if |lines| == 1 {
      NormalizeNewlinesPlainPrefix(lines[0], "");
      assert lines[0] + "" == lines[0];
    } else if |lines| >= 2 {
      var rest := Join(lines[1..], "\r\n");
      assert Join(lines, "\r\n") == lines[0] + ("\r\n" + rest);
      NormalizeNewlinesPlainPrefix(lines[0], "\r\n" + rest);
      assert ("\r\n" + rest)[2..] == rest;
      NormalizeNewlinesOfJoin(lines[1..]);
      assert Join(lines, "\n") == lines[0] + ("\n" + Join(lines[1..], "\n"));
    }
  }

  function StartsWith(s: string, prefix: string): bool {
    |prefix| <= |s| && s[..|prefix|] == prefix
  }

  /** `s.includes(sub)`. */
  function Contains(s: string, sub: string): bool
    decreases |s|
  {
    StartsWith(s, sub) || (s != [] && Contains(s[1..], sub))
  }

  function ToLowerChar(c: char): char {
    if 'A' <= c <= 'Z' then (c as int + 32) as char else c
  }

  /** `toLowerCase()` restricted to ASCII letters (the only letters the model ever compares). */
  function ToLowerAscii(s: string): (r: string)
    ensures |r| == |s|
    ensures forall k | 0 <= k < |s| :: r[k] == ToLowerChar(s[k])
  {
    if s == [] then [] else [ToLowerChar(s[0])] + ToLowerAscii(s[1..])
  }

  predicate HasNoUpperAscii(s: string) {
    forall k | 0 <= k < |s| :: !('A' <= s[k] <= 'Z')
  }

  /** Lower-casing leaves no upper-case ASCII letter, so doing it twice changes nothing more. */
  lemma LowerIdempotent(s: string)
    ensures HasNoUpperAscii(ToLowerAscii(s))
    ensures ToLowerAscii(ToLowerAscii(s)) == ToLowerAscii(s)
  {
  }

  /** A case-insensitive prefix test, as a regular expression with the `i` flag performs it on ASCII letters. */
  predicate StartsWithCI(s: string, prefix: string) {
    |prefix| <= |s| && forall k | 0 <= k < |prefix| :: ToLowerChar(s[k]) == ToLowerChar(prefix[k])
  }

  /** JavaScript's `\d`: an ASCII decimal digit. */
  predicate IsDigit(c: char) {
    '0' <= c <= '9'
  }

  predicate AllDigits(s: string) {
    forall k | 0 <= k < |s| :: IsDigit(s[k])
  }

  /** The length of the digit run that starts `s`. */
  function DigitRun(s: string): (n: nat)
    ensures n <= |s|
    ensures AllDigits(s[..n])
    ensures n < |s| ==> !IsDigit(s[n])
  {
    if s == [] || !IsDigit(s[0]) then 0
    else
      var m := DigitRun(s[1..]);
      assert s[..1 + m] == [s[0]] + s[1..][..m];
      1 + m
  }

  /** The number a string of decimal digits denotes. */
  function DigitsValue(s: string): nat
    requires AllDigits(s)
  {
    if s == [] then 0 else 10 * DigitsValue(s[..|s| - 1]) + (s[|s| - 1] as int - '0' as int)
  }

  /** The shortest decimal spelling of `n`. */
  function NatToDecimal(n: nat): (r: string)
    ensures |r| >= 1 && AllDigits(r)
  {
    if n < 10 then [('0' as int + n) as char]
    else NatToDecimal(n / 10) + [('0' as int + n % 10) as char]
  }

  /** Reading back the decimal spelling of a number gives the number. */
  lemma {:induction false} DigitsValueOfDecimal(n: nat)
    ensures DigitsValue(NatToDecimal(n)) == n
  {
    var r := NatToDecimal(n);
    if n >= 10 {
      DigitsValueOfDecimal(n / 10);
      assert r[..|r| - 1] == NatToDecimal(n / 10);
    }
  }

  /**
    `Number(s)` as far as an integer attribute goes: surrounding whitespace is ignored, the empty
    string is 0, an optional sign and a run of decimal digits give that integer, anything else is
    NaN (`None`).
   */
  function JsNumber(s: string): (r: Option<int>)
    ensures Trim(s) == "" ==> r == Some(0)
  {
    var t := Trim(s);
    if t == "" then Some(0)
    else if (t[0] == '+' || t[0] == '-') && |t| > 1 && AllDigits(t[1..]) then
      Some(if t[0] == '-' then -(DigitsValue(t[1..]) as int) else DigitsValue(t[1..]))
    else if AllDigits(t) then Some(DigitsValue(t))
    else None
  }

  /** `Number` reads back the decimal spelling of every natural number. */
  lemma JsNumberOfDecimal(n: nat)
    ensures JsNumber(NatToDecimal(n)) == Some(n)
  {
    var d := NatToDecimal(n);
    assert !IsSpace(d[0]) && !IsSpace(d[|d| - 1]);
    assert Trim(d) == d;
    assert d[0] != '+' && d[0] != '-';
    DigitsValueOfDecimal(n);
  }
}
