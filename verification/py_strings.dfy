/** The Python `str` operations the validator relies on, with Python's
    semantics: `isspace`, `strip`, `split(sep)`, `sep.join`, `replace` and
    `str(n)` for a non-negative int. Strings are sequences of code points. */
module PyStrings {
  import opened PyLists

  /** Python's `str.isspace` for one character: the Unicode whitespace set.
      The space, tab and newline are in it; none of the characters the
      pattern syntax uses (`-`, `>`, `.`, the parentheses, digits) is. */
  predicate IsSpace(c: char)
    ensures c == ' ' || c == '\t' || c == '\n' ==> IsSpace(c)
    ensures IsSpace(c) ==> c != '-' && c != '>' && c != '.' && c != '(' && c != ')' && !IsDigit(c)
  {
    var n := c as int;
    || (9 <= n <= 13)
    || (28 <= n <= 32)
    || n == 0x85
    || n == 0xA0
    || n == 0x1680
    || (0x2000 <= n <= 0x200A)
    || n == 0x2028
    || n == 0x2029
    || n == 0x202F
    || n == 0x205F
    || n == 0x3000
  }

  predicate AllSpace(s: string) {
    forall k :: 0 <= k < |s| ==> IsSpace(s[k])
  }

  /** Neither the first nor the last character is whitespace. */
  predicate NoOuterSpace(s: string) {
    s == [] || (!IsSpace(s[0]) && !IsSpace(s[|s| - 1]))
  }

  predicate StartsWith(s: string, p: string) {
    |p| <= |s| && s[..|p|] == p
  }

  /** `p` occurs in `s` starting at position `i`. */
  predicate OccursAt(s: string, p: string, i: int) {
    0 <= i && i + |p| <= |s| && s[i..i + |p|] == p
  }

  /** Python's `p in s`. */
  predicate Contains(s: string, p: string) {
    exists i :: 0 <= i <= |s| && OccursAt(s, p, i)
  }

  /** The end of the whitespace run that starts at `i`: the first position
      at or after `i` holding another character, or `|s|` if there is none. */
  function SkipSpace(s: string, i: nat): (n: nat)
    requires i <= |s|
    ensures i <= n <= |s|
    ensures forall k :: i <= k < n ==> IsSpace(s[k])
    ensures n < |s| ==> !IsSpace(s[n])
    decreases |s| - i
  {
    if i < |s| && IsSpace(s[i]) then SkipSpace(s, i + 1) else i
  }

  /** The start of the whitespace run that ends just before `j`, scanning
      back no further than `lo`. */
  function SkipSpaceBack(s: string, lo: nat, j: nat): (n: nat)
    requires lo <= j <= |s|
    ensures lo <= n <= j
    ensures forall k :: n <= k < j ==> IsSpace(s[k])
    ensures lo < n ==> !IsSpace(s[n - 1])
    decreases j - lo
  {
    if lo < j && IsSpace(s[j - 1]) then SkipSpaceBack(s, lo, j - 1) else j
  }

  /** How many whitespace characters `lstrip` drops. */
  function LeadingSpace(s: string): nat {
    SkipSpace(s, 0)
  }

  /** Python's `str.strip()` (equivalently `lstrip().rstrip()`): the result is
      the slice of `s` left once the whitespace at both ends is dropped. */
  function Strip(s: string): (r: string)
    ensures NoOuterSpace(r)
    ensures LeadingSpace(s) + |r| <= |s|
    ensures r == s[LeadingSpace(s)..LeadingSpace(s) + |r|]
    ensures forall k :: 0 <= k < LeadingSpace(s) ==> IsSpace(s[k])
    ensures forall k :: LeadingSpace(s) + |r| <= k < |s| ==> IsSpace(s[k])
  {
    var l := SkipSpace(s, 0);
    s[l..SkipSpaceBack(s, l, |s|)]
  }

  /** Python's `sep.join(parts)`: the parts in order, with `sep` between
      neighbours. */
  function Join(parts: seq<string>, sep: string): string
  {
    if |parts| == 0 then ""
    else if |parts| == 1 then parts[0]
    else parts[0] + sep + Join(parts[1..], sep)
  }

  /** Python's `s.split(sep)` for an explicit, non-empty separator: cuts at
      every leftmost non-overlapping occurrence of `sep`; joining the pieces
      back with `sep` gives `s` again. */
  function Split(s: string, sep: string): (parts: seq<string>)
    requires |sep| > 0
    ensures |parts| >= 1
    ensures Join(parts, sep) == s
    decreases |s|
  {
    if |s| < |sep| then
      [s]
    else if s[..|sep|] == sep then
      var rest := Split(s[|sep|..], sep);
      assert s == sep + s[|sep|..];
      [""] + rest
    else
      var rest := Split(s[1..], sep);
      assert s == [s[0]] + s[1..];
      [[s[0]] + rest[0]] + rest[1..]
  }

  /** Python's `s.replace(pat, repl)`: every leftmost non-overlapping
      occurrence of `pat` is replaced by `repl`, scanning left to right. */
  function Replace(s: string, pat: string, repl: string): (r: string)
    requires |pat| > 0
    ensures |repl| <= |pat| ==> |r| <= |s|
    decreases |s|
  {
    assert |s| >= |pat| ==> s == s[..|pat|] + s[|pat|..] && s == [s[0]] + s[1..];
    if |s| < |pat| then s
    else if s[..|pat|] == pat then repl + Replace(s[|pat|..], pat, repl)
    else [s[0]] + Replace(s[1..], pat, repl)
  }

  predicate IsDigit(c: char) {
    '0' <= c <= '9'
  }

  predicate AllDigits(s: string) {
    forall k :: 0 <= k < |s| ==> IsDigit(s[k])
  }

  function DigitChar(d: nat): (c: char)
    requires d < 10
    ensures IsDigit(c)
  {
    ('0' as int + d) as char
  }

  function DigitValue(c: char): nat
    requires IsDigit(c)
  {
    c as int - '0' as int
  }

  /** Python's `str(n)` for a non-negative int: decimal digits, with no
      leading zero unless `n` is zero itself. */
  function NatToString(n: nat): (s: string)
    ensures |s| >= 1 && AllDigits(s)
    ensures s[0] == '0' ==> n == 0
  {
    if n < 10 then [DigitChar(n)] else NatToString(n / 10) + [DigitChar(n % 10)]
  }

  /** Reads a string of decimal digits back as a number (Python's `int(s)`). */
  function ParseDecimal(s: string): nat
    requires AllDigits(s)
  {
    if |s| == 0 then 0 else 10 * ParseDecimal(s[..|s| - 1]) + DigitValue(s[|s| - 1])
  }

  /** `p` occurs in `s` at `i` and nowhere else. */
  predicate UniqueOccurrence(s: string, p: string, i: int) {
    OccursAt(s, p, i) && forall j :: 0 <= j <= |s| && OccursAt(s, p, j) ==> j == i
  }

  /** The joined string starts with the first piece. */
  lemma JoinStartsWithFirst(parts: seq<string>, sep: string)
    requires |parts| >= 1
    ensures StartsWith(Join(parts, sep), parts[0])
  {
  }

  /** No piece returned by `Split` contains the separator. */
  lemma {:induction false} SplitPiecesAvoidSep(s: string, sep: string)
    requires |sep| > 0
    ensures forall k :: 0 <= k < |Split(s, sep)| ==> !Contains(Split(s, sep)[k], sep)
    decreases |s|
  {
    var parts := Split(s, sep);
    if |s| < |sep| {
      assert parts == [s];
    } else if s[..|sep|] == sep {
      SplitPiecesAvoidSep(s[|sep|..], sep);
      assert parts == [""] + Split(s[|sep|..], sep);
    } else {
      var rest := Split(s[1..], sep);
      SplitPiecesAvoidSep(s[1..], sep);
      var p0 := [s[0]] + rest[0];
      assert parts == [p0] + rest[1..];
      JoinStartsWithFirst(rest, sep);
      assert p0 == s[..|p0|];
      forall i | 0 <= i <= |p0|
        ensures !OccursAt(p0, sep, i)
      {
        if i == 0 && |sep| <= |p0| {
          assert p0[..|sep|] == s[..|sep|];
        } else if 0 < i && i + |sep| <= |p0| {
          assert p0[i..i + |sep|] == rest[0][i - 1..i - 1 + |sep|];
          assert !OccursAt(rest[0], sep, i - 1);
        }
      }
    }
  }

  /** For a two-character separator whose characters differ (such as
      `"->"`), `Split` yields exactly two pieces iff the separator occurs
      exactly once, and the pieces are then the text before and after it. */
  lemma SplitInTwo(s: string, sep: string)
    requires |sep| == 2 && sep[0] != sep[1]
    ensures |Split(s, sep)| == 2 <==> exists i :: UniqueOccurrence(s, sep, i)
    ensures forall i :: UniqueOccurrence(s, sep, i) ==> Split(s, sep) == [s[..i], s[i + 2..]]
  {
    var parts := Split(s, sep);
    if |parts| == 1 {
      SplitOnePiece(s, sep);
    } else if |parts| == 2 {
      SplitTwoPieces(s, sep);
    } else {
      SplitManyPieces(s, sep);
    }
  }

  /** One piece: the separator does not occur. */
  lemma SplitOnePiece(s: string, sep: string)
    requires |sep| == 2 && |Split(s, sep)| == 1
    ensures forall i :: !OccursAt(s, sep, i)
  {
    var parts := Split(s, sep);
    SplitPiecesAvoidSep(s, sep);
    assert s == parts[0];
    assert !Contains(parts[0], sep);
    forall i | 0 <= i <= |s|
      ensures !OccursAt(s, sep, i)
    {
    }
  }

  /** Two pieces: the separator occurs exactly once, between them. */
  lemma SplitTwoPieces(s: string, sep: string)
    requires |sep| == 2 && sep[0] != sep[1] && |Split(s, sep)| == 2
    ensures UniqueOccurrence(s, sep, |Split(s, sep)[0]|)
    ensures Split(s, sep) == [s[..|Split(s, sep)[0]|], s[|Split(s, sep)[0]| + 2..]]
  {
    var parts := Split(s, sep);
    SplitPiecesAvoidSep(s, sep);
    var p0, p1 := parts[0], parts[1];
    assert parts[1..] == [p1];
    assert s == p0 + sep + p1;
    assert !Contains(p0, sep) && !Contains(p1, sep);
    OnlyOccurrenceBetween(p0, p1, sep);
    assert s[..|p0|] == p0 && s[|p0| + 2..] == p1;
    assert parts == [p0, p1];
  }

  /** A two-character separator with distinct characters, placed between
      two strings that do not contain it, occurs there and nowhere else. */
  lemma OnlyOccurrenceBetween(p0: string, p1: string, sep: string)
    requires |sep| == 2 && sep[0] != sep[1]
    requires !Contains(p0, sep) && !Contains(p1, sep)
    ensures UniqueOccurrence(p0 + sep + p1, sep, |p0|)
  {
    var s := p0 + sep + p1;
    var i0 := |p0|;
    assert OccursAt(s, sep, i0) by { assert s[i0..i0 + 2] == sep; }
    forall j | 0 <= j <= |s| && j != i0
      ensures !OccursAt(s, sep, j)
    {
      if j + 2 <= i0 {
        assert p0[j..j + 2] == s[j..j + 2];
        assert !OccursAt(p0, sep, j);
      } else if j == i0 - 1 {
        assert s[j + 1] == sep[0] && s[j + 1] == s[j..j + 2][1];
      } else if j == i0 + 1 && j + 2 <= |s| {
        assert s[j] == sep[1] && s[j] == s[j..j + 2][0];
      } else if j >= i0 + 2 && j + 2 <= |s| {
        assert p1[j - i0 - 2..j - i0] == s[j..j + 2];
        assert !OccursAt(p1, sep, j - i0 - 2);
      }
    }
  }

  /** More than two pieces: the separator occurs at two places. */
  lemma SplitManyPieces(s: string, sep: string)
    requires |sep| == 2 && |Split(s, sep)| > 2
    ensures forall i :: !UniqueOccurrence(s, sep, i)
  {
    var parts := Split(s, sep);
    var p0, p1 := parts[0], parts[1];
    var i0 := |p0|;
    var i1 := |p0| + 2 + |p1|;
    assert parts[1..][0] == p1 && parts[1..][1..] == parts[2..];
    assert Join(parts, sep) == p0 + sep + Join(parts[1..], sep);
    assert Join(parts[1..], sep) == p1 + sep + Join(parts[2..], sep);
    assert s == p0 + sep + (p1 + sep + Join(parts[2..], sep));
    assert OccursAt(s, sep, i0) by { assert s[i0..i0 + 2] == sep; }
    assert OccursAt(s, sep, i1) by { assert s[i1..i1 + 2] == sep; }
    forall i ensures !UniqueOccurrence(s, sep, i) {
      assert i != i0 || i != i1;
    }
  }

  /** Replacing a pattern that does not occur changes nothing. */
  lemma {:induction false} ReplaceAbsent(s: string, pat: string, repl: string)
    requires |pat| > 0 && !Contains(s, pat)
    ensures Replace(s, pat, repl) == s
    decreases |s|
  {
    if |s| >= |pat| {
      assert !OccursAt(s, pat, 0);
      forall i | 0 <= i <= |s[1..]| && OccursAt(s[1..], pat, i)
        ensures false
      {
        assert s[1..][i..i + |pat|] == s[i + 1..i + 1 + |pat|];
        assert OccursAt(s, pat, i + 1);
      }
      ReplaceAbsent(s[1..], pat, repl);
    }
  }

  /** `s.replace(c, '')` removes every `c` and keeps every other character. */
  lemma {:induction false} RemoveChar(s: string, c: char)
    ensures c !in Replace(s, [c], "")
    ensures forall d :: d != c ==> multiset(Replace(s, [c], ""))[d] == multiset(s)[d]
    decreases |s|
  {
    if |s| >= 1 {
      RemoveChar(s[1..], c);
      assert s == [s[0]] + s[1..];
      if s[..1] == [c] {
        assert Replace(s, [c], "") == Replace(s[1..], [c], "");
      } else {
        assert Replace(s, [c], "") == [s[0]] + Replace(s[1..], [c], "");
      }
    }
  }

  /** No three consecutive dots anywhere in `s`. */
  predicate NoTripleDot(s: string) {
    forall k :: 0 <= k && k + 2 < |s| ==> !(s[k] == '.' && s[k + 1] == '.' && s[k + 2] == '.')
  }

  /** Removing every `"..."` cannot bring dots together into a new
      `"..."`: each maximal run of dots keeps its length modulo three. */
  lemma {:induction false} RemoveEllipsisLeavesNone(s: string)
    ensures NoTripleDot(Replace(s, "...", ""))
    ensures |s| > 0 && s[0] != '.' ==> |Replace(s, "...", "")| > 0 && Replace(s, "...", "")[0] == s[0]
    decreases |s|
  {
    var r := Replace(s, "...", "");
    if |s| < 3 {
      assert r == s;
    } else if s[..3] == "..." {
      RemoveEllipsisLeavesNone(s[3..]);
      assert r == Replace(s[3..], "...", "");
    } else {
      var t := Replace(s[1..], "...", "");
      RemoveEllipsisLeavesNone(s[1..]);
      assert s == [s[0]] + s[1..];
      RemoveEllipsisCons(s, s[0], s[1..]);
      if s[0] == '.' && s[1] == '.' {
        assert s[2] != '.' by { assert s[..3] == [s[0], s[1], s[2]]; }
        if |s| == 3 {
          assert t == s[1..];
        } else {
          var rest := s[1..];
          assert rest[..3] != "..." by { assert rest[..3][1] == s[2]; }
          assert rest == [s[1]] + s[2..];
          RemoveEllipsisCons(rest, s[1], s[2..]);
          RemoveEllipsisLeavesNone(s[2..]);
        }
      }
    }
  }

  /** After `s.replace('...', '')` the string no longer contains `"..."`. */
  lemma NoEllipsisAfterRemoval(s: string)
    ensures !Contains(Replace(s, "...", ""), "...")
  {
    var r := Replace(s, "...", "");
    RemoveEllipsisLeavesNone(s);
    forall i | 0 <= i <= |r|
      ensures !OccursAt(r, "...", i)
    {
      if i + 3 <= |r| {
        assert r[i..i + 3][0] == r[i] && r[i..i + 3][1] == r[i + 1] && r[i..i + 3][2] == r[i + 2];
      }
    }
  }

  /** Reading `str(n)` back gives `n`. */
  lemma {:induction false} ParseNatToString(n: nat)
    ensures ParseDecimal(NatToString(n)) == n
  {
    if n >= 10 {
      ParseNatToString(n / 10);
      var s := NatToString(n);
      assert s[..|s| - 1] == NatToString(n / 10);
    }
  }

  /** Distinct numbers print differently. */
  lemma NatToStringInjective(a: nat, b: nat)
    ensures NatToString(a) == NatToString(b) ==> a == b
  {
    ParseNatToString(a);
    ParseNatToString(b);
  }

  /** A one-character pattern occurs exactly when the character does. */
  lemma CharContains(s: string, c: char)
    ensures Contains(s, [c]) <==> c in s
  {
    if c in s {
      var i :| 0 <= i < |s| && s[i] == c;
      assert s[i..i + 1] == [c];
      assert OccursAt(s, [c], i);
    } else {
      forall i | 0 <= i <= |s|
        ensures !OccursAt(s, [c], i)
      {
        if i + 1 <= |s| {
          assert s[i..i + 1][0] == s[i];
        }
      }
    }
  }

  /** Every character of a piece is a character of the joined string. */
  lemma {:induction false} JoinKeepsChars(parts: seq<string>, sep: string)
    ensures forall k, c :: 0 <= k < |parts| && c in parts[k] ==> c in Join(parts, sep)
  {
    if |parts| >= 2 {
      JoinKeepsChars(parts[1..], sep);
      forall k, c | 0 <= k < |parts| && c in parts[k]
        ensures c in Join(parts, sep)
      {
        if k > 0 {
          assert parts[k] == parts[1..][k - 1];
        }
      }
    }
  }

  /** A string without the separator character is not split. */
  lemma {:induction false} SplitWithoutSep(s: string, c: char)
    requires c !in s
    ensures Split(s, [c]) == [s]
    decreases |s|
  {
    if |s| >= 1 {
      assert s[..1] != [c] by { assert s[..1][0] == s[0]; }
      SplitWithoutSep(s[1..], c);
      assert s == [s[0]] + s[1..];
    }
  }

  /** Splitting right after a separator-free first piece. */
  lemma {:induction false} SplitAfterPiece(p: string, c: char, rest: string)
    requires c !in p
    ensures Split(p + [c] + rest, [c]) == [p] + Split(rest, [c])
    decreases |p|
  {
    var s := p + [c] + rest;
    if |p| == 0 {
      assert s[..1] == [c] && s[1..] == rest;
    } else {
      assert s[..1] != [c] by { assert s[..1][0] == p[0]; }
      assert s[1..] == p[1..] + [c] + rest;
      SplitAfterPiece(p[1..], c, rest);
      assert [p[0]] + p[1..] == p;
    }
  }

  /** `sep.join` then `split(sep)` gives the pieces back, provided there is
      at least one piece and no piece holds the separator character. */
  lemma {:induction false} SplitJoinRoundTrip(parts: seq<string>, c: char)
    requires |parts| >= 1
    requires forall k :: 0 <= k < |parts| ==> c !in parts[k]
    ensures Split(Join(parts, [c]), [c]) == parts
  {
    if |parts| == 1 {
      SplitWithoutSep(parts[0], c);
    } else {
      SplitJoinRoundTrip(parts[1..], c);
      SplitAfterPiece(parts[0], c, Join(parts[1..], [c]));
      assert [parts[0]] + parts[1..] == parts;
    }
  }

  /** A slice of a string cannot contain what the string does not. */
  lemma SliceContains(s: string, i: int, j: int, p: string)
    requires 0 <= i <= j <= |s|
    requires Contains(s[i..j], p)
    ensures Contains(s, p)
  {
    var t := s[i..j];
    var k :| 0 <= k <= |t| && OccursAt(t, p, k);
    var u, w := t[k..k + |p|], s[i + k..i + k + |p|];
    forall m | 0 <= m < |p|
      ensures u[m] == w[m]
    {
      assert u[m] == t[k + m] == s[i + k + m];
    }
    assert u == w;
    assert OccursAt(s, p, i + k);
  }

  /** Stripping cannot introduce a substring. */
  lemma StripKeepsAbsence(s: string, p: string)
    requires !Contains(s, p)
    ensures !Contains(Strip(s), p)
  {
    var r := Strip(s);
    SliceAvoids(s, LeadingSpace(s), LeadingSpace(s) + |r|, p);
  }

  /** A slice avoids whatever the string avoids. */
  lemma SliceAvoids(s: string, i: int, j: int, p: string)
    requires 0 <= i <= j <= |s|
    requires !Contains(s, p)
    ensures !Contains(s[i..j], p)
  {
    if Contains(s[i..j], p) {
      SliceContains(s, i, j, p);
    }
  }

  /** Every character of the joined string comes from a piece or from the
      separator. */
  lemma {:induction false} JoinOnlyChars(parts: seq<string>, sep: string, c: char)
    requires c in Join(parts, sep)
    ensures c in sep || exists k :: 0 <= k < |parts| && c in parts[k]
  {
    if |parts| >= 2 && c !in parts[0] && c !in sep {
      JoinOnlyChars(parts[1..], sep, c);
      var k :| 0 <= k < |parts[1..]| && c in parts[1..][k];
      assert c in parts[k + 1];
    }
  }

  // ---------------------------------------------------------------------
  // Deleting characters and ellipses

  /** Deleting one character works piece by piece over a concatenation. */
  lemma {:induction false} RemoveCharConcat(a: string, b: string, c: char)
    ensures Replace(a + b, [c], "") == Replace(a, [c], "") + Replace(b, [c], "")
    decreases |a|
  {
    if |a| == 0 {
      assert a + b == b;
    } else {
      assert (a + b)[..1] == a[..1] && (a + b)[1..] == a[1..] + b;
      RemoveCharConcat(a[1..], b, c);
    }
  }

  /** Deleting a character that does not occur changes nothing. */
  lemma {:induction false} RemoveAbsentChar(s: string, c: char)
    requires c !in s
    ensures Replace(s, [c], "") == s
    decreases |s|
  {
    if |s| > 0 {
      assert s[..1] != [c] by { assert s[..1][0] == s[0]; }
      RemoveAbsentChar(s[1..], c);
      assert s == [s[0]] + s[1..];
    }
  }

  /** `s.replace('...', '')` keeps every character other than `.`, as often
      as it occurs. */
  lemma {:induction false} RemoveEllipsisKeepsChars(s: string)
    ensures forall c :: c != '.' ==> multiset(Replace(s, "...", ""))[c] == multiset(s)[c]
    decreases |s|
  {
    if |s| >= 3 {
      if s[..3] == "..." {
        RemoveEllipsisKeepsChars(s[3..]);
        assert s == s[..3] + s[3..];
        assert multiset(s[..3]) == multiset{'.', '.', '.'};
      } else {
        RemoveEllipsisKeepsChars(s[1..]);
        assert s == [s[0]] + s[1..];
      }
    }
  }

  /** Deleting `...` cannot reach across into a part that does not start
      with a dot, so it works part by part. */
  lemma {:induction false} RemoveEllipsisConcat(a: string, b: string)
    requires b == [] || b[0] != '.'
    ensures Replace(a + b, "...", "") == Replace(a, "...", "") + Replace(b, "...", "")
    decreases |a|
  {
    if |a| == 0 {
      assert a + b == b;
    } else if |a| >= 3 && a[..3] == "..." {
      RemoveEllipsisConcat(a[3..], b);
      RemoveEllipsisDropsHead(a, b);
    } else {
      RemoveEllipsisConcat(a[1..], b);
      RemoveEllipsisKeepsHead(a, b);
    }
  }

  /** When `a` starts with `...`, deleting it from `a + b` deletes that
      first `...` and goes on with the rest. */
  lemma RemoveEllipsisDropsHead(a: string, b: string)
    requires |a| >= 3 && a[..3] == "..."
    requires Replace(a[3..] + b, "...", "") == Replace(a[3..], "...", "") + Replace(b, "...", "")
    ensures Replace(a + b, "...", "") == Replace(a, "...", "") + Replace(b, "...", "")
  {
    var t := a[3..];
    assert a == "..." + t;
    ConcatAssoc("...", t, b);
    RemoveEllipsisSkip(a + b, t + b);
    RemoveEllipsisSkip(a, t);
  }

  /** A leading `...` is deleted and the rest is handled on its own. */
  lemma RemoveEllipsisSkip(s: string, t: string)
    requires s == "..." + t
    ensures Replace(s, "...", "") == Replace(t, "...", "")
  {
    assert s[..3] == "..." && s[3..] == t;
  }

  /** When `a` does not start with `...`, its first character is kept in
      front of what deleting `...` makes of the rest. */
  lemma RemoveEllipsisKeepsHead(a: string, b: string)
    requires b == [] || b[0] != '.'
    requires |a| > 0 && !(|a| >= 3 && a[..3] == "...")
    requires Replace(a[1..] + b, "...", "") == Replace(a[1..], "...", "") + Replace(b, "...", "")
    ensures Replace(a + b, "...", "") == Replace(a, "...", "") + Replace(b, "...", "")
  {
    var rab, ra := Replace(a + b, "...", ""), Replace(a, "...", "");
    var rtb, rt, rb := Replace(a[1..] + b, "...", ""), Replace(a[1..], "...", ""), Replace(b, "...", "");
    assert rab == [a[0]] + rtb by {
      NoEllipsisAcross(a, b);
      assert a == [a[0]] + a[1..];
      ConcatAssoc([a[0]], a[1..], b);
      RemoveEllipsisCons(a + b, a[0], a[1..] + b);
    }
    assert ra == [a[0]] + rt by {
      RemoveEllipsisCons(a, a[0], a[1..]);
    }
    ConsOfConcat(a[0], rab, ra, rtb, rt, rb);
  }

  /** Putting one element in front of both sides of `p == q + r`. */
  lemma ConsOfConcat<T>(h: T, x: seq<T>, y: seq<T>, p: seq<T>, q: seq<T>, r: seq<T>)
    requires x == [h] + p && y == [h] + q && p == q + r
    ensures x == y + r
  {
    assert [h] + (q + r) == ([h] + q) + r;
  }

  /** A string `[h] + t` that does not start with `...` keeps its first
      character `h`. */
  lemma RemoveEllipsisCons(s: string, h: char, t: string)
    requires s == [h] + t && !(|s| >= 3 && s[..3] == "...")
    ensures Replace(s, "...", "") == [h] + Replace(t, "...", "")
  {
    assert s[0] == h && s[1..] == t;
    if |s| < 3 {
      assert Replace(t, "...", "") == t;
    }
  }

  /** A non-empty `a` that does not start with `...`, followed by a part
      that does not start with a dot: the concatenation does not start
      with `...` either. */
  lemma NoEllipsisAcross(a: string, b: string)
    requires b == [] || b[0] != '.'
    requires |a| > 0 && !(|a| >= 3 && a[..3] == "...")
    ensures !(|a + b| >= 3 && (a + b)[..3] == "...")
  {
    var ab := a + b;
    if |ab| >= 3 {
      if |a| >= 3 {
        assert ab[..3] == a[..3];
      } else {
        assert ab[..3][|a|] == b[0];
      }
    }
  }

  /** A dot-free text in front is kept as it is. */
  lemma {:induction false} RemoveEllipsisAfterDotless(a: string, b: string)
    requires '.' !in a
    ensures Replace(a + b, "...", "") == a + Replace(b, "...", "")
    decreases |a|
  {
    var ab := a + b;
    if |a| == 0 {
      assert ab == b;
    } else {
      var rb := Replace(b, "...", "");
      assert a == [a[0]] + a[1..];
      ConcatAssoc([a[0]], a[1..], b);
      assert !(|ab| >= 3 && ab[..3] == "...") by {
        if |ab| >= 3 { assert ab[..3][0] == a[0]; }
      }
      RemoveEllipsisCons(ab, a[0], a[1..] + b);
      RemoveEllipsisAfterDotless(a[1..], b);
      ConcatAssoc([a[0]], a[1..], rb);
    }
  }

  /** Deleting `...` commutes with stripping, up to a final strip: the
      whitespace `strip` cuts holds no dot. */
  lemma RemoveEllipsisStrip(x: string)
    ensures Strip(Replace(x, "...", "")) == Strip(Replace(Strip(x), "...", ""))
  {
    var n := LeadingSpace(x);
    var t := Strip(x);
    StripCuts(x);
    RemoveEllipsisStripParts(x, x[..n], t, x[n + |t|..]);
  }

  /** Whitespace around `t` survives the deletion of `...` and is then
      cut by `strip()`. */
  lemma RemoveEllipsisStripParts(x: string, u: string, t: string, w: string)
    requires x == u + (t + w) && AllSpace(u) && AllSpace(w)
    ensures Strip(Replace(x, "...", "")) == Strip(Replace(t, "...", ""))
  {
    var rt := Replace(t, "...", "");
    RemoveEllipsisPadded(u, t, w);
    StripPadded(u, rt, w);
  }

  /** Deleting `...` leaves the whitespace around a text in place. */
  lemma RemoveEllipsisPadded(u: string, t: string, w: string)
    requires AllSpace(u) && AllSpace(w)
    ensures Replace(u + (t + w), "...", "") == u + Replace(t, "...", "") + w
  {
    SpaceHasNoDot(u);
    SpaceHasNoDot(w);
    var rt := Replace(t, "...", "");
    calc {
      Replace(u + (t + w), "...", "");
      { RemoveEllipsisAfterDotless(u, t + w); }
      u + Replace(t + w, "...", "");
      { RemoveEllipsisConcat(t, w); }
      u + (rt + Replace(w, "...", ""));
      { RemoveEllipsisAfterDotless(w, ""); assert w + "" == w; }
      u + (rt + w);
      { ConcatAssoc(u, rt, w); }
      u + rt + w;
    }
  }

  /** A string is what `strip()` keeps, with whitespace cut on either side. */
  lemma StripCuts(x: string)
    ensures LeadingSpace(x) + |Strip(x)| <= |x|
    ensures x == x[..LeadingSpace(x)] + (Strip(x) + x[LeadingSpace(x) + |Strip(x)|..])
    ensures AllSpace(x[..LeadingSpace(x)]) && AllSpace(x[LeadingSpace(x) + |Strip(x)|..])
  {
    var n := LeadingSpace(x);
    var t := Strip(x);
    var u, w := x[..n], x[n + |t|..];
    assert x == u + (t + w);
    forall k | 0 <= k < |u|
      ensures IsSpace(u[k])
    {
      assert u[k] == x[k];
    }
    forall k | 0 <= k < |w|
      ensures IsSpace(w[k])
    {
      assert w[k] == x[n + |t| + k];
    }
  }

  /** Whitespace holds no dot. */
  lemma SpaceHasNoDot(s: string)
    requires AllSpace(s)
    ensures '.' !in s
    ensures s == [] || s[0] != '.'
  {
  }

  // ---------------------------------------------------------------------
  // Stripping

  /** `strip()` is characterised by its cuts: if everything before `n` and
      from `m` on is whitespace and `s[n..m]` has no outer whitespace,
      `strip()` gives `s[n..m]`. */
  lemma StripIs(s: string, n: nat, m: nat)
    requires n <= m <= |s|
    requires forall k :: 0 <= k < n ==> IsSpace(s[k])
    requires forall k :: m <= k < |s| ==> IsSpace(s[k])
    requires n < m ==> !IsSpace(s[n]) && !IsSpace(s[m - 1])
    ensures Strip(s) == s[n..m]
  {
    var l := SkipSpace(s, 0);
    if n < m {
      assert l == n;
      assert SkipSpaceBack(s, l, |s|) == m;
    } else {
      assert l == |s|;
    }
  }

  /** Whitespace around a text does not change what `strip()` gives. */
  lemma StripPadded(u: string, x: string, w: string)
    requires AllSpace(u) && AllSpace(w)
    ensures Strip(u + x + w) == Strip(x)
  {
    var l := LeadingSpace(x);
    var t := Strip(x);
    var s := u + x + w;
    var n, m := |u| + l, |u| + l + |t|;
    forall k | 0 <= k < n
      ensures IsSpace(s[k])
    {
      if k < |u| {
        assert s[k] == u[k];
      } else {
        assert s[k] == x[k - |u|];
      }
    }
    forall k | m <= k < |s|
      ensures IsSpace(s[k])
    {
      if k < |u| + |x| {
        assert s[k] == x[k - |u|];
      } else {
        assert s[k] == w[k - |u| - |x|];
      }
    }
    assert s[n..m] == t by {
      forall k | 0 <= k < |t|
        ensures s[n..m][k] == t[k]
      {
        assert t[k] == x[l + k];
      }
    }
    if n < m {
      assert s[n] == t[0] && s[m - 1] == t[|t| - 1];
    }
    StripIs(s, n, m);
  }

  /** Stripping a string whose tail from `e` on is whitespace: cutting the
      tail first does not change the result. */
  lemma StripTail(s: string, u: string, q: nat, e: nat)
    requires q <= e <= |s| && u == s[q..e]
    requires forall k :: e <= k < |s| ==> IsSpace(s[k])
    ensures Strip(u) == Strip(s[q..])
  {
    var w := s[e..];
    assert AllSpace(w) by {
      forall k | 0 <= k < |w|
        ensures IsSpace(w[k])
      {
        assert w[k] == s[e + k];
      }
    }
    assert s[q..] == [] + u + w;
    StripPadded([], u, w);
  }

  /** Two characters that are not whitespace lie inside what `strip()`
      keeps. */
  lemma StripKeepsPair(s: string, p: nat)
    requires p + 2 <= |s| && !IsSpace(s[p]) && !IsSpace(s[p + 1])
    ensures LeadingSpace(s) <= p && p + 2 <= LeadingSpace(s) + |Strip(s)|
  {
  }

  /** Inside a slice `t == s[l..l + |t|]`, position `p` of `s` sits at
      `p - l`, and what follows it is the rest of the slice. */
  lemma SliceShift(s: string, t: string, l: nat, p: nat)
    requires l <= p && p + 2 <= l + |t| <= |s| && t == s[l..l + |t|]
    ensures t[p - l..p - l + 2] == s[p..p + 2]
    ensures t[p - l + 2..] == s[p + 2..l + |t|]
  {
    var i := p - l;
    var x, y := t[i..i + 2], s[p..p + 2];
    forall k | 0 <= k < 2
      ensures x[k] == y[k]
    {
      assert t[i + k] == s[l + i + k];
    }
    var x', y' := t[i + 2..], s[p + 2..l + |t|];
    forall k | 0 <= k < |x'|
      ensures x'[k] == y'[k]
    {
      assert t[i + 2 + k] == s[l + i + 2 + k];
    }
  }

  /** A two-character separator kept by `strip()` moves left by the
      whitespace cut in front. */
  lemma StripShiftsPair(s: string, p: nat)
    requires LeadingSpace(s) <= p && p + 2 <= LeadingSpace(s) + |Strip(s)|
    ensures Strip(s)[p - LeadingSpace(s)..p - LeadingSpace(s) + 2] == s[p..p + 2]
  {
    SliceShift(s, Strip(s), LeadingSpace(s), p);
  }

  /** What follows a position kept by `strip()`, stripped, is what followed
      it before, stripped. */
  lemma StripKeepsRest(s: string, p: nat)
    requires LeadingSpace(s) <= p && p + 2 <= LeadingSpace(s) + |Strip(s)|
    ensures Strip(Strip(s)[p - LeadingSpace(s) + 2..]) == Strip(s[p + 2..])
  {
    StripRestOfSlice(s, Strip(s), LeadingSpace(s), p);
  }

  /** What follows position `p` inside a slice `t == s[l..l + |t|]` that
      only whitespace follows, stripped, is what follows `p` in `s`,
      stripped. */
  lemma StripRestOfSlice(s: string, t: string, l: nat, p: nat)
    requires l <= p && p + 2 <= l + |t| <= |s| && t == s[l..l + |t|]
    requires forall k :: l + |t| <= k < |s| ==> IsSpace(s[k])
    ensures Strip(t[p - l + 2..]) == Strip(s[p + 2..])
  {
    SliceShift(s, t, l, p);
    StripTail(s, t[p - l + 2..], p + 2, l + |t|);
  }

  /** A separator without whitespace survives `strip()` at its place,
      shifted by the whitespace cut in front; what follows it, stripped,
      is what followed it before, stripped. */
  lemma StripAroundSep(a: string, sep: string, b: string)
    requires |sep| == 2 && !IsSpace(sep[0]) && !IsSpace(sep[1])
    ensures LeadingSpace(a + sep + b) <= |a|
    ensures OccursAt(Strip(a + sep + b), sep, |a| - LeadingSpace(a + sep + b))
    ensures Strip(Strip(a + sep + b)[|a| - LeadingSpace(a + sep + b) + 2..]) == Strip(b)
  {
    var s := a + sep + b;
    assert s[|a|..|a| + 2] == sep && s[|a| + 2..] == b;
    StripKeepsPair(s, |a|);
    StripShiftsPair(s, |a|);
    StripKeepsRest(s, |a|);
  }

  /** A two-character separator without whitespace that occurs once in
      `s` occurs once in `strip(s)`, moved left by the whitespace cut in
      front. */
  lemma StripKeepsUniquePair(s: string, sep: string, i: nat)
    requires |sep| == 2 && !IsSpace(sep[0]) && !IsSpace(sep[1])
    requires UniqueOccurrence(s, sep, i)
    ensures LeadingSpace(s) <= i && UniqueOccurrence(Strip(s), sep, i - LeadingSpace(s))
  {
    assert s[i] == s[i..i + 2][0] && s[i + 1] == s[i..i + 2][1];
    StripKeepsPair(s, i);
    UniqueInSlice(s, sep, i, LeadingSpace(s), LeadingSpace(s) + |Strip(s)|);
  }

  /** An occurrence that is unique in a string stays unique in a slice
      that holds it. */
  lemma UniqueInSlice(s: string, p: string, i: int, lo: int, hi: int)
    requires 0 <= lo <= i && i + |p| <= hi <= |s|
    requires UniqueOccurrence(s, p, i)
    ensures UniqueOccurrence(s[lo..hi], p, i - lo)
  {
    var t := s[lo..hi];
    SliceOfSlice(s, lo, hi, i - lo, i - lo + |p|);
    forall j | 0 <= j <= |t| && OccursAt(t, p, j)
      ensures j == i - lo
    {
      SliceOfSlice(s, lo, hi, j, j + |p|);
      assert OccursAt(s, p, lo + j);
    }
  }

  /** A slice of a slice is a slice of the whole. */
  lemma SliceOfSlice(s: string, lo: int, hi: int, a: int, b: int)
    requires 0 <= lo <= hi <= |s| && 0 <= a <= b <= hi - lo
    ensures s[lo..hi][a..b] == s[lo + a..lo + b]
  {
    assert forall m :: 0 <= m < b - a ==> s[lo..hi][a..b][m] == s[lo + a + m];
  }

  /** `sep.join` of two non-empty lists of parts is the two joins with a
      separator between them. */
  lemma {:induction false} JoinAppend(a: seq<string>, b: seq<string>, sep: string)
    requires |a| >= 1 && |b| >= 1
    ensures Join(a + b, sep) == Join(a, sep) + sep + Join(b, sep)
    decreases |a|
  {
    if |a| >= 2 {
      assert (a + b)[1..] == a[1..] + b;
      JoinAppend(a[1..], b, sep);
    } else {
      assert (a + b)[1..] == b;
    }
  }
}
