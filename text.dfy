/** String operations of JavaScript that the application relies on:
    `includes`, `indexOf`, `replace` (first occurrence, and every occurrence
    with a global pattern), `repeat`, and the decimal rendering of an integer
    that a template literal performs. Strings are sequences of UTF-16 code
    units, modelled as `seq<char>`. */
module Text {

  /** `t` occurs in `s` starting at index `i`. */
  predicate OccursAt(s: string, t: string, i: int)
  {
    0 <= i && i + |t| <= |s| && s[i..i + |t|] == t
  }

  /** JavaScript's `s.includes(t)`. */
  predicate Contains(s: string, t: string)
  {
    exists i | 0 <= i <= |s| - |t| :: OccursAt(s, t, i)
  }

  lemma ContainsAt(s: string, t: string, i: int)
    requires OccursAt(s, t, i)
    ensures Contains(s, t)
  {
  }

  /** An occurrence in the tail is an occurrence one place further on. */
  lemma OccursShift(s: string, t: string, j: int)
    requires |s| >= 1 && 1 <= j
    ensures OccursAt(s, t, j) <==> OccursAt(s[1..], t, j - 1)
  {
    if j + |t| <= |s| {
      assert s[1..][j - 1..j - 1 + |t|] == s[j..j + |t|];
    }
  }

  /** `t` occurs in `s` exactly when it starts `s` or occurs in its tail. */
  lemma ContainsStep(s: string, t: string)
    requires |s| >= 1
    ensures Contains(s, t) <==> OccursAt(s, t, 0) || Contains(s[1..], t)
  {
    if Contains(s, t) {
      var i :| 0 <= i <= |s| - |t| && OccursAt(s, t, i);
      if i > 0 {
        OccursShift(s, t, i);
        ContainsAt(s[1..], t, i - 1);
      }
    }
    if Contains(s[1..], t) {
      var i :| 0 <= i <= |s[1..]| - |t| && OccursAt(s[1..], t, i);
      OccursShift(s, t, i + 1);
      ContainsAt(s, t, i + 1);
    }
  }

  /** JavaScript's `s.indexOf(t)`: the first index where `t` occurs, or -1. */
  function IndexOf(s: string, t: string): (r: int)
    ensures r == -1 || OccursAt(s, t, r)
    ensures r >= 0 ==> forall j :: 0 <= j < r ==> !OccursAt(s, t, j)
    ensures r == -1 <==> !Contains(s, t)
    decreases |s|
  {
    if |s| < |t| then -1
    else if s[..|t|] == t then
      ContainsAt(s, t, 0);
      0
    else
      var k := IndexOf(s[1..], t);
      ContainsStep(s, t);
      if k < 0 then -1
      else
        assert forall j :: 1 <= j <= k ==> (OccursAt(s, t, j) <==> OccursAt(s[1..], t, j - 1)) by {
          forall j | 1 <= j <= k ensures OccursAt(s, t, j) <==> OccursAt(s[1..], t, j - 1) {
            OccursShift(s, t, j);
          }
        }
        OccursShift(s, t, k + 1);
        k + 1
  }

  /** JavaScript's `s.replace(pat, rep)` with a string pattern: only the
      first occurrence is replaced. */
  function ReplaceFirst(s: string, pat: string, rep: string): (r: string)
    ensures !Contains(s, pat) ==> r == s
    ensures Contains(s, pat) ==>
      var i := IndexOf(s, pat);
      |r| == |s| - |pat| + |rep| && r[..i] == s[..i] && r[i..i + |rep|] == rep && r[i + |rep|..] == s[i + |pat|..]
  {
    var i := IndexOf(s, pat);
    if i < 0 then s else s[..i] + rep + s[i + |pat|..]
  }

  /** Replacing the first occurrence of `pat` by `[c] + pat` inserts `c`
      right before that occurrence. */
  lemma ReplaceFirstInserts(s: string, pat: string, c: char)
    requires Contains(s, pat)
    ensures var i := IndexOf(s, pat);
      var r := ReplaceFirst(s, pat, [c] + pat);
      && 0 <= i && |r| == |s| + 1
      && r[..i] == s[..i] && r[i] == c && r[i + 1..] == s[i..]
  {
    var i := IndexOf(s, pat);
    var rep := [c] + pat;
    var r := ReplaceFirst(s, pat, rep);
    assert OccursAt(s, pat, i);
    assert r[i..i + |rep|] == rep && r[i + |rep|..] == s[i + |pat|..];
    assert r[i] == c && r[i + 1..i + |rep|] == pat by {
      SliceStep(r, i, rep);
    }
    assert r[i + 1..] == s[i..] by {
      SliceSplit(r, i + 1, i + |rep|);
      SliceSplit(s, i, i + |pat|);
    }
  }

  /** A slice is the slice up to a later index followed by the rest. */
  lemma SliceSplit<T>(s: seq<T>, a: int, b: int)
    requires 0 <= a <= b <= |s|
    ensures s[a..] == s[a..b] + s[b..]
  {
  }

  /** A slice equal to `t` starts with `t[0]`, and dropping one element
      from both sides keeps them equal. */
  lemma SliceStep<T>(s: seq<T>, i: int, t: seq<T>)
    requires 0 <= i && i + |t| <= |s| && t != [] && s[i..i + |t|] == t
    ensures s[i] == t[0] && s[i + 1..i + |t|] == t[1..]
  {
    assert s[i..i + |t|][0] == s[i];
  }

  /** JavaScript's `s.replace(new RegExp(pat, 'g'), rep)` for a pattern
      without metacharacters: the text is scanned left to right and every
      non-overlapping occurrence of `pat` is replaced by `rep`. */
  function ReplaceAll(s: string, pat: string, rep: string): string
    requires pat != []
    decreases |s|
  {
    if |s| < |pat| then s
    else if s[..|pat|] == pat then rep + ReplaceAll(s[|pat|..], pat, rep)
    else [s[0]] + ReplaceAll(s[1..], pat, rep)
  }

  /** A text that is exactly the pattern becomes exactly the replacement. */
  lemma ReplaceAllWhole(pat: string, rep: string)
    requires pat != []
    ensures ReplaceAll(pat, pat, rep) == rep
  {
    assert pat[..|pat|] == pat;
    assert rep + ReplaceAll(pat[|pat|..], pat, rep) == rep;
  }

  /** The pieces of `s` between the non-overlapping occurrences of `pat`
      found by a left-to-right scan: an independent description of which
      occurrences `ReplaceAll` replaces. */
  function Split(s: string, pat: string): (r: seq<string>)
    requires pat != []
    ensures |r| >= 1
    decreases |s|
  {
    if |s| < |pat| then [s]
    else if s[..|pat|] == pat then [[]] + Split(s[|pat|..], pat)
    else
      var rest := Split(s[1..], pat);
      [[s[0]] + rest[0]] + rest[1..]
  }

  /** The pieces joined with `sep` between consecutive pieces. */
  function Join(pieces: seq<string>, sep: string): string
    requires |pieces| >= 1
  {
    if |pieces| == 1 then pieces[0] else pieces[0] + sep + Join(pieces[1..], sep)
  }

  /** Prepending a unit to the first piece prepends it to the joined text. */
  lemma JoinConsHead(c: char, pieces: seq<string>, sep: string)
    requires |pieces| >= 1
    ensures Join([[c] + pieces[0]] + pieces[1..], sep) == [c] + Join(pieces, sep)
  {
    var ps := [[c] + pieces[0]] + pieces[1..];
    if |pieces| > 1 {
      assert ps[1..] == pieces[1..];
    }
  }

  /** Joining the pieces back with the pattern gives the original text. */
  lemma {:induction false} SplitJoin(s: string, pat: string)
    requires pat != []
    ensures Join(Split(s, pat), pat) == s
    decreases |s|
  {
    if |s| < |pat| {
    } else if s[..|pat|] == pat {
      var pieces := Split(s[|pat|..], pat);
      SplitJoin(s[|pat|..], pat);
      assert Split(s, pat) == [[]] + pieces;
      assert ([[]] + pieces)[1..] == pieces;
      assert Join([[]] + pieces, pat) == [] + pat + Join(pieces, pat);
      assert s == pat + s[|pat|..];
    } else {
      var pieces := Split(s[1..], pat);
      SplitJoin(s[1..], pat);
      assert Split(s, pat) == [[s[0]] + pieces[0]] + pieces[1..];
      JoinConsHead(s[0], pieces, pat);
      assert s == [s[0]] + s[1..];
    }
  }

  /** Replacing every occurrence is joining the pieces with the replacement. */
  lemma {:induction false} ReplaceAllIsJoin(s: string, pat: string, rep: string)
    requires pat != []
    ensures ReplaceAll(s, pat, rep) == Join(Split(s, pat), rep)
    decreases |s|
  {
    if |s| < |pat| {
    } else if s[..|pat|] == pat {
      ReplaceAllIsJoin(s[|pat|..], pat, rep);
    } else {
      ReplaceAllIsJoin(s[1..], pat, rep);
      JoinConsHead(s[0], Split(s[1..], pat), rep);
    }
  }

  /** The first piece is the text before the first occurrence. */
  lemma {:induction false} SplitHeadIsPrefix(s: string, pat: string)
    requires pat != []
    ensures Split(s, pat)[0] <= s
    ensures |s| >= |pat| && s[..|pat|] == pat ==> Split(s, pat)[0] == []
    decreases |s|
  {
    if |s| < |pat| {
    } else if s[..|pat|] == pat {
    } else {
      SplitHeadIsPrefix(s[1..], pat);
    }
  }

  /** No piece contains the pattern: every occurrence in the text lies on
      a boundary between pieces, so `ReplaceAll` replaces all of them. */
  lemma {:induction false} SplitPiecesFree(s: string, pat: string)
    requires pat != []
    ensures forall k :: 0 <= k < |Split(s, pat)| ==> !Contains(Split(s, pat)[k], pat)
    decreases |s|
  {
    if |s| < |pat| {
    } else if s[..|pat|] == pat {
      SplitPiecesFree(s[|pat|..], pat);
      var r := Split(s, pat);
      assert r[1..] == Split(s[|pat|..], pat);
    } else {
      SplitPiecesFree(s[1..], pat);
      SplitHeadIsPrefix(s[1..], pat);
      var rest := Split(s[1..], pat);
      HeadPieceFree(s, rest[0], pat);
      var r := Split(s, pat);
      assert r == [[s[0]] + rest[0]] + rest[1..];
      forall k | 1 <= k < |r| ensures !Contains(r[k], pat) {
        assert r[k] == rest[k];
      }
    }
  }

  /** A unit that does not start the pattern, followed by a prefix of the
      rest of the text that is free of it, is free of it. */
  lemma HeadPieceFree(s: string, piece: string, pat: string)
    requires pat != [] && |s| >= |pat| && s[..|pat|] != pat
    requires piece <= s[1..] && !Contains(piece, pat)
    ensures !Contains([s[0]] + piece, pat)
  {
    var head := [s[0]] + piece;
    assert head <= s;
    forall i | 0 <= i <= |head| - |pat| ensures !OccursAt(head, pat, i) {
      if i == 0 {
        assert head[..|pat|] == s[..|pat|];
      } else {
        assert piece[i - 1..i - 1 + |pat|] == head[i..i + |pat|];
        assert !OccursAt(piece, pat, i - 1);
      }
    }
  }

  /** A text without the pattern is left as it is. */
  lemma {:induction false} ReplaceAllAbsent(s: string, pat: string, rep: string)
    requires pat != []
    requires !Contains(s, pat)
    ensures ReplaceAll(s, pat, rep) == s
    decreases |s|
  {
    if |s| < |pat| {
    } else {
      ContainsStep(s, pat);
      assert !OccursAt(s, pat, 0);
      ReplaceAllAbsent(s[1..], pat, rep);
    }
  }

  /** JavaScript's `c.repeat(n)` for a one-unit string `c`. */
  function Repeat(c: char, n: nat): (r: string)
    ensures |r| == n
    ensures forall i :: 0 <= i < n ==> r[i] == c
  {
    if n == 0 then [] else [c] + Repeat(c, n - 1)
  }

  /** The decimal digit for `d`. */
  function Digit(d: nat): (c: char)
    requires d < 10
  {
    (48 + d) as char
  }

  /** The decimal rendering of a natural number, most significant digit
      first, as `String(n)` gives it. */
  function NatToDecimal(n: nat): (r: string)
    ensures |r| >= 1
    ensures n >= 10 ==> |r| >= 2
    ensures forall i :: 0 <= i < |r| ==> '0' <= r[i] <= '9'
  {
    if n < 10 then [Digit(n)] else NatToDecimal(n / 10) + [Digit(n % 10)]
  }

  /** `String(i)` for an integer: a minus sign before a negative one. */
  function IntToString(i: int): (r: string)
  {
    if i < 0 then "-" + NatToDecimal(-i) else NatToDecimal(i)
  }

  /** Different numbers have different decimal renderings. */
  lemma {:induction false} NatToDecimalInjective(a: nat, b: nat)
    requires NatToDecimal(a) == NatToDecimal(b)
    ensures a == b
  {
    var da, db := NatToDecimal(a), NatToDecimal(b);
    assert (a < 10) == (b < 10) by { assert |da| == |db|; }
    if a < 10 {
      assert da[0] == db[0];
    } else {
      assert da[|da| - 1] == db[|db| - 1];
      assert a % 10 == b % 10;
      assert NatToDecimal(a / 10) == da[..|da| - 1] == db[..|db| - 1] == NatToDecimal(b / 10);
      NatToDecimalInjective(a / 10, b / 10);
    }
  }
}
