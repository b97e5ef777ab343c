/** String helpers shared by the frontend (TypeScript) and backend (Python) models:
    whitespace trimming, ASCII lower-casing, decimal rendering of naturals,
    substring search and literal replace-all. */
module Strings {
  import opened Wrappers
  import Seqs

  /** ASCII whitespace: space, tab, line feed, vertical tab, form feed, carriage return. */
  predicate IsSpace(c: char) {
    c == ' ' || (9 <= c as int <= 13)
  }

  predicate AllSpace(s: string) {
    forall i :: 0 <= i < |s| ==> IsSpace(s[i])
  }

  /** Drops leading whitespace. */
  function TrimStart(s: string): (r: string)
    ensures |r| <= |s| && r == s[|s| - |r|..]
    ensures AllSpace(s[..|s| - |r|])
    ensures |r| > 0 ==> !IsSpace(r[0])
  {
    if |s| > 0 && IsSpace(s[0]) then TrimStart(s[1..]) else s
  }

  /** Drops trailing whitespace. */
  function TrimEnd(s: string): (r: string)
    ensures |r| <= |s| && r == s[..|r|]
    ensures AllSpace(s[|r|..])
    ensures |r| > 0 ==> !IsSpace(r[|r| - 1])
  {
    if |s| > 0 && IsSpace(s[|s| - 1]) then TrimEnd(s[..|s| - 1]) else s
  }

  /** JavaScript `String.prototype.trim` and Python `str.strip()` on ASCII whitespace. */
  function Trim(s: string): (r: string)
    ensures |r| <= |s|
    ensures forall c :: c in r ==> c in s
    ensures r == "" <==> AllSpace(s)
    ensures |r| > 0 ==> !IsSpace(r[0]) && !IsSpace(r[|r| - 1])
  {
    TrimEmptyIff(s);
    TrimEnd(TrimStart(s))
  }

  lemma TrimEmptyIff(s: string)
    ensures TrimEnd(TrimStart(s)) == "" <==> AllSpace(s)
  {
    var t := TrimStart(s);
    var n := |s| - |t|;
    if TrimEnd(t) == "" {
      assert t[0..] == t;
      assert t == "";
      assert s[..n] == s;
    }
  }

  /** Trimming text that has no surrounding whitespace changes nothing. */
  lemma TrimOfTrimmed(s: string)
    requires |s| > 0 ==> !IsSpace(s[0]) && !IsSpace(s[|s| - 1])
    ensures Trim(s) == s
  {
  }

  /** Whitespace in front of a string does not survive trimming. */
  lemma {:induction false} TrimSkipsBlankPrefix(a: string, b: string)
    requires AllSpace(a)
    ensures Trim(a + b) == Trim(b)
  {
    TrimStartSkipsBlankPrefix(a, b);
  }

  lemma {:induction false} TrimStartSkipsBlankPrefix(a: string, b: string)
    requires AllSpace(a)
    ensures TrimStart(a + b) == TrimStart(b)
  {
    if |a| > 0 {
      assert (a + b)[1..] == a[1..] + b;
      TrimStartSkipsBlankPrefix(a[1..], b);
    } else {
      assert a + b == b;
    }
  }

  /** A leading blank does not survive trimming. */
  lemma TrimLeadingSpace(s: string)
    ensures Trim(" " + s) == Trim(s)
  {
    assert (" " + s)[1..] == s;
  }

  /** ASCII upper-case letters mapped to lower case, everything else unchanged. */
  function LowerChar(c: char): (r: char)
    ensures 'A' <= c <= 'Z' ==> r as int == c as int + 32
    ensures !('A' <= c <= 'Z') ==> r == c
  {
    if 'A' <= c <= 'Z' then (c as int + 32) as char else c
  }

  /** JavaScript `toLowerCase` and Python `str.lower()`, restricted to ASCII letters. */
  function Lower(s: string): (r: string)
    ensures |r| == |s|
    ensures forall i :: 0 <= i < |s| ==> r[i] == LowerChar(s[i])
  {
    if |s| == 0 then "" else [LowerChar(s[0])] + Lower(s[1..])
  }

  function DigitChar(d: nat): (c: char)
    requires d < 10
    ensures '0' <= c <= '9'
  {
    ('0' as int + d) as char
  }

  /** Decimal rendering of a natural number, as JavaScript template literals and
      Python f-strings print integers. */
  function NatToString(n: nat): (r: string)
    ensures |r| >= 1
    ensures n >= 10 ==> |r| >= 2
    ensures forall i :: 0 <= i < |r| ==> '0' <= r[i] <= '9'
  {
    if n < 10 then [DigitChar(n)] else NatToString(n / 10) + [DigitChar(n % 10)]
  }

  /** Different numbers print differently. */
  lemma {:induction false} NatToStringInjective(a: nat, b: nat)
    requires NatToString(a) == NatToString(b)
    ensures a == b
    decreases a
  {
    if a >= 10 && b >= 10 {
      var sa, sb := NatToString(a), NatToString(b);
      assert sa[|sa| - 1] == DigitChar(a % 10);
      assert sb[|sb| - 1] == DigitChar(b % 10);
      assert a % 10 == b % 10;
      assert sa[..|sa| - 1] == NatToString(a / 10);
      assert sb[..|sb| - 1] == NatToString(b / 10);
      NatToStringInjective(a / 10, b / 10);
    }
  }

  /** `p` occurs in `s` starting at index `i`. */
  predicate OccursAt(s: string, p: string, i: int) {
    0 <= i && i + |p| <= |s| && s[i..i + |p|] == p
  }

  /** JavaScript `String.prototype.includes` / Python `in` on strings. */
  predicate Contains(s: string, p: string) {
    exists i :: 0 <= i <= |s| && OccursAt(s, p, i)
  }

  /** The first index at or after `from` where `p` occurs in `s`. */
  function FindFrom(s: string, p: string, from: nat): (r: Option<nat>)
    ensures r.Some? ==> from <= r.value && OccursAt(s, p, r.value)
    ensures r.Some? ==> forall k :: from <= k < r.value ==> !OccursAt(s, p, k)
    ensures r.None? ==> forall k :: from <= k ==> !OccursAt(s, p, k)
    decreases |s| - from
  {
    if from + |p| > |s| then None
    else if s[from..from + |p|] == p then Some(from)
    else FindFrom(s, p, from + 1)
  }

  /** JavaScript `lastIndexOf` / Python `rfind` for one character: the last
      position of `c` in `s`, if any. */
  function LastIndexOf(s: string, c: char): (r: Option<nat>)
    ensures r.Some? ==> r.value < |s| && s[r.value] == c && forall k :: r.value < k < |s| ==> s[k] != c
    ensures r.None? <==> c !in s
  {
    if |s| == 0 then None
    else if s[|s| - 1] == c then Some(|s| - 1)
    else
      var r := LastIndexOf(s[..|s| - 1], c);
      assert s == s[..|s| - 1] + [s[|s| - 1]];
      r
  }

  /** Strings with `c` at the same positions have the same last `c`. */
  lemma LastIndexOfSamePositions(a: string, b: string, c: char)
    requires |a| == |b| && forall k :: 0 <= k < |a| ==> (a[k] == c <==> b[k] == c)
    ensures LastIndexOf(a, c) == LastIndexOf(b, c)
  {
    var x := LastIndexOf(a, c);
    if x.Some? {
      assert b[x.value] == c;
    }
  }

  /** Splits `s` at every non-overlapping occurrence of `p`, scanning left to right. */
  function Split(s: string, p: string): (r: seq<string>)
    requires |p| > 0
    ensures |r| >= 1
    decreases |s|
  {
    match FindFrom(s, p, 0)
    case None => [s]
    case Some(i) => [s[..i]] + Split(s[i + |p|..], p)
  }

  /** Concatenates `pieces` with `sep` between consecutive pieces. */
  function Join(pieces: seq<string>, sep: string): string {
    if |pieces| == 0 then ""
    else if |pieces| == 1 then pieces[0]
    else pieces[0] + sep + Join(pieces[1..], sep)
  }

  /** Where piece `i` starts in `Join(pieces, sep)`: after every earlier
      piece and one separator each. */
  function JoinOffset(pieces: seq<string>, sep: string, i: nat): nat
    requires i <= |pieces|
  {
    if i == 0 then 0 else JoinOffset(pieces, sep, i - 1) + |pieces[i - 1]| + |sep|
  }

  lemma {:induction false} JoinOffsetTail(pieces: seq<string>, sep: string, i: nat)
    requires 0 < |pieces| && i < |pieces|
    ensures JoinOffset(pieces, sep, i + 1) == |pieces[0]| + |sep| + JoinOffset(pieces[1..], sep, i)
  {
    if i > 0 {
      JoinOffsetTail(pieces, sep, i - 1);
      assert pieces[1..][i - 1] == pieces[i];
    }
  }

  /** Every piece of a join sits at its offset. */
  lemma JoinPiecesAt(pieces: seq<string>, sep: string)
    ensures forall i :: 0 <= i < |pieces| ==> OccursAt(Join(pieces, sep), pieces[i], JoinOffset(pieces, sep, i))
  {
    forall i | 0 <= i < |pieces|
      ensures OccursAt(Join(pieces, sep), pieces[i], JoinOffset(pieces, sep, i))
    {
      JoinPieceAt(pieces, sep, i);
    }
  }

  /** `sep` follows every piece but the last, at the offsets of a join. */
  predicate SeparatorsAt(s: string, pieces: seq<string>, sep: string) {
    forall i :: 0 <= i < |pieces| - 1 ==> OccursAt(s, sep, JoinOffset(pieces, sep, i) + |pieces[i]|)
  }

  /** The separator follows every piece of a join but the last. */
  lemma JoinSeparatorsAt(pieces: seq<string>, sep: string)
    ensures SeparatorsAt(Join(pieces, sep), pieces, sep)
  {
    forall i | 0 <= i < |pieces| - 1
      ensures OccursAt(Join(pieces, sep), sep, JoinOffset(pieces, sep, i) + |pieces[i]|)
    {
      JoinSeparatorAt(pieces, sep, i);
    }
  }

  lemma {:induction false} JoinLength(pieces: seq<string>, sep: string)
    requires |pieces| > 0
    ensures |Join(pieces, sep)| == JoinOffset(pieces, sep, |pieces| - 1) + |pieces[|pieces| - 1]|
  {
    if |pieces| > 1 {
      var tail := pieces[1..];
      JoinLength(tail, sep);
      JoinOffsetTail(pieces, sep, |tail| - 1);
      assert Join(pieces, sep) == pieces[0] + sep + Join(tail, sep);
      assert pieces[|pieces| - 1] == tail[|tail| - 1];
    }
  }

  lemma {:induction false} JoinPieceAt(pieces: seq<string>, sep: string, i: nat)
    requires i < |pieces|
    ensures OccursAt(Join(pieces, sep), pieces[i], JoinOffset(pieces, sep, i))
  {
    var whole := Join(pieces, sep);
    if |pieces| == 1 {
      assert whole[0..|pieces[0]|] == pieces[0];
    } else {
      var head := pieces[0] + sep;
      assert whole == head + Join(pieces[1..], sep);
      if i == 0 {
        assert whole[0..|pieces[0]|] == pieces[0];
      } else {
        JoinPieceAt(pieces[1..], sep, i - 1);
        JoinOffsetTail(pieces, sep, i - 1);
        ShiftOccurrence(head, Join(pieces[1..], sep), pieces[1..][i - 1], JoinOffset(pieces[1..], sep, i - 1));
      }
    }
  }

  lemma {:induction false} JoinSeparatorAt(pieces: seq<string>, sep: string, i: nat)
    requires i + 1 < |pieces|
    ensures OccursAt(Join(pieces, sep), sep, JoinOffset(pieces, sep, i) + |pieces[i]|)
  {
    var head := pieces[0] + sep;
    var rest := Join(pieces[1..], sep);
    assert Join(pieces, sep) == head + rest;
    if i == 0 {
      SeparatorAfterHead(pieces[0], sep, rest);
    } else {
      JoinSeparatorAt(pieces[1..], sep, i - 1);
      JoinOffsetTail(pieces, sep, i - 1);
      ShiftOccurrence(head, rest, sep, JoinOffset(pieces[1..], sep, i - 1) + |pieces[1..][i - 1]|);
    }
  }

  lemma SeparatorAfterHead(p: string, sep: string, rest: string)
    ensures OccursAt(p + sep + rest, sep, |p|)
  {
    assert (p + sep + rest)[|p|..|p| + |sep|] == sep;
  }

  /** An occurrence in `b` is an occurrence in `a + b`, shifted by `|a|`. */
  lemma ShiftOccurrence(a: string, b: string, p: string, k: nat)
    requires OccursAt(b, p, k)
    ensures OccursAt(a + b, p, |a| + k)
  {
    assert (a + b)[|a| + k..|a| + k + |p|] == b[k..k + |p|];
  }

  /** Global literal replacement, left to right and non-overlapping: what
      `text.replace(new RegExp(p, 'g'), r)` does when `p` and `r` hold no
      regular-expression or replacement metacharacters. */
  function ReplaceAll(s: string, p: string, r: string): string
    requires |p| > 0
    decreases |s|
  {
    match FindFrom(s, p, 0)
    case None => s
    case Some(i) => s[..i] + r + ReplaceAll(s[i + |p|..], p, r)
  }

  /** No piece of a split contains the separator. */
  lemma {:induction false} SplitPiecesAvoidSeparator(s: string, p: string)
    requires |p| > 0
    ensures forall k :: 0 <= k < |Split(s, p)| ==> !Contains(Split(s, p)[k], p)
    decreases |s|
  {
    match FindFrom(s, p, 0)
    case None =>
    case Some(i) =>
      var head := s[..i];
      forall k | 0 <= k
        ensures !OccursAt(head, p, k)
      {
        if OccursAt(head, p, k) {
          assert head[k..k + |p|] == s[k..k + |p|];
          assert OccursAt(s, p, k);
        }
      }
      SplitPiecesAvoidSeparator(s[i + |p|..], p);
  }

  /** A text without the separator character splits into itself alone. */
  lemma SplitWithoutSeparator(s: string, c: char)
    requires c !in s
    ensures Split(s, [c]) == [s]
  {
    forall k | 0 <= k < |s|
      ensures !OccursAt(s, [c], k)
    {
      assert s[k..k + 1][0] == s[k];
    }
  }

  /** No piece of a split at one character contains that character. */
  lemma SplitPiecesAvoidChar(s: string, c: char)
    ensures forall k :: 0 <= k < |Split(s, [c])| ==> c !in Split(s, [c])[k]
  {
    var parts := Split(s, [c]);
    SplitPiecesAvoidSeparator(s, [c]);
    forall k | 0 <= k < |parts|
      ensures c !in parts[k]
    {
      if c in parts[k] {
        var j :| 0 <= j < |parts[k]| && parts[k][j] == c;
        assert parts[k][j..j + 1] == [c];
        assert OccursAt(parts[k], [c], j);
      }
    }
  }

  /** The last piece of a split is whatever follows the last separator. */
  lemma {:induction false} SplitEndsWithLastPiece(d: string, c: char, n: string)
    requires c !in n
    ensures var parts := Split(d + [c] + n, [c]); parts[|parts| - 1] == n
    decreases |d|
  {
    var s := d + [c] + n;
    var i := FirstSeparator(d, c, n);
    var rest := s[i + 1..];
    var pieces := Split(rest, [c]);
    assert Split(s, [c]) == [s[..i]] + pieces;
    if i == |d| {
      assert rest == n;
      SplitWithoutSeparator(n, c);
    } else {
      var d' := d[i + 1..];
      assert rest == d' + [c] + n by {
        Seqs.DropConcat(d + [c], n, i + 1);
        Seqs.DropConcat(d, [c], i + 1);
      }
      SplitEndsWithLastPiece(d', c, n);
    }
    Seqs.LastOfCons(s[..i], pieces);
  }

  /** The first separator in `d + [c] + n` lies within `d`, or is the `c`
      after it. */
  lemma FirstSeparator(d: string, c: char, n: string) returns (i: nat)
    ensures FindFrom(d + [c] + n, [c], 0) == Some(i) && i <= |d|
  {
    var s := d + [c] + n;
    assert OccursAt(s, [c], |d|) by {
      assert s[|d|..|d| + 1] == [c];
    }
    i := FindFrom(s, [c], 0).value;
  }

  /** Joining the pieces back with the separator restores the text. */
  lemma {:induction false} JoinSplit(s: string, p: string)
    requires |p| > 0
    ensures Join(Split(s, p), p) == s
    decreases |s|
  {
    match FindFrom(s, p, 0)
    case None =>
    case Some(i) =>
      var rest := s[i + |p|..];
      var pieces := Split(rest, p);
      JoinSplit(rest, p);
      assert Split(s, p) == [s[..i]] + pieces;
      assert ([s[..i]] + pieces)[0] == s[..i];
      assert ([s[..i]] + pieces)[1..] == pieces;
      assert Join([s[..i]] + pieces, p) == s[..i] + p + Join(pieces, p);
      assert s == s[..i] + p + rest;
  }

  /** Replacing is splitting at the pattern and joining with the replacement. */
  lemma {:induction false} ReplaceAllIsSplitJoin(s: string, p: string, r: string)
    requires |p| > 0
    ensures ReplaceAll(s, p, r) == Join(Split(s, p), r)
    decreases |s|
  {
    match FindFrom(s, p, 0)
    case None =>
    case Some(i) =>
      var rest := s[i + |p|..];
      var pieces := Split(rest, p);
      ReplaceAllIsSplitJoin(rest, p, r);
      assert Split(s, p) == [s[..i]] + pieces;
      assert ([s[..i]] + pieces)[0] == s[..i];
      assert ([s[..i]] + pieces)[1..] == pieces;
      assert Join([s[..i]] + pieces, r) == s[..i] + r + Join(pieces, r);
  }

  /** Text without the pattern is left alone, and replacing a pattern by itself changes nothing. */
  lemma ReplaceAllIdentities(s: string, p: string)
    requires |p| > 0
    ensures !Contains(s, p) ==> forall r :: ReplaceAll(s, p, r) == s
    ensures ReplaceAll(s, p, p) == s
  {
    JoinSplit(s, p);
    ReplaceAllIsSplitJoin(s, p, p);
  }
}
