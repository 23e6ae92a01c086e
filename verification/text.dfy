/**
 * The JavaScript string primitives the two pages rely on: `trim`, removal of a
 * trailing run of one character, `startsWith`/`endsWith`, ASCII `toUpperCase`
 * and the relational `<` on strings, as lexicographic order on characters.
 * A Dafny `char` is a Unicode scalar value, so `Less` compares code points;
 * this agrees with JavaScript's UTF-16 code-unit order for characters inside
 * the Basic Multilingual Plane.
 */
module Text {

  /** The code points `String.prototype.trim` removes (WhiteSpace and LineTerminator). */
  predicate IsWhitespace(c: char) {
    var n := c as int;
    n == 0x09 || n == 0x0A || n == 0x0B || n == 0x0C || n == 0x0D || n == 0x20
    || n == 0xA0 || n == 0x1680 || (0x2000 <= n <= 0x200A) || n == 0x2028
    || n == 0x2029 || n == 0x202F || n == 0x205F || n == 0x3000 || n == 0xFEFF
  }

  /** No whitespace at either end: what `trim` leaves behind. */
  predicate IsTrimmed(s: string) {
    s == [] || (!IsWhitespace(s[0]) && !IsWhitespace(s[|s| - 1]))
  }

  /** A string `trim` turns into the empty string (a falsy value). */
  predicate IsBlank(s: string) {
    forall k :: 0 <= k < |s| ==> IsWhitespace(s[k])
  }

  /** Leading whitespace removed: the longest suffix not starting with whitespace. */
  function TrimStart(s: string): (r: string)
    ensures |r| <= |s| && r == s[|s| - |r|..]
    ensures r == [] || !IsWhitespace(r[0])
  {
    if |s| > 0 && IsWhitespace(s[0]) then TrimStart(s[1..]) else s
  }

  /** Trailing whitespace removed: the longest prefix not ending in whitespace. */
  function TrimEnd(s: string): (r: string)
    ensures |r| <= |s| && r == s[..|r|]
    ensures r == [] || !IsWhitespace(r[|r| - 1])
  {
    if |s| > 0 && IsWhitespace(s[|s| - 1]) then TrimEnd(s[..|s| - 1]) else s
  }

  /** Everything `TrimStart` drops is whitespace. */
  lemma {:induction false} TrimStartDropsWhitespace(s: string)
    ensures forall k :: 0 <= k < |s| - |TrimStart(s)| ==> IsWhitespace(s[k])
    decreases |s|
  {
    if |s| > 0 && IsWhitespace(s[0]) {
      TrimStartDropsWhitespace(s[1..]);
      assert forall k :: 0 < k < |s| ==> s[k] == s[1..][k - 1];
    }
  }

  /** Everything `TrimEnd` drops is whitespace. */
  lemma {:induction false} TrimEndDropsWhitespace(s: string)
    ensures forall k :: |TrimEnd(s)| <= k < |s| ==> IsWhitespace(s[k])
    decreases |s|
  {
    if |s| > 0 && IsWhitespace(s[|s| - 1]) {
      TrimEndDropsWhitespace(s[..|s| - 1]);
    }
  }

  /** `s.trim()`: the slice of `s` left after removing whitespace at both ends. */
  function Trim(s: string): (r: string)
    ensures |r| <= |s|
    ensures r == [] || (!IsWhitespace(r[0]) && !IsWhitespace(r[|r| - 1]))
  {
    var t := TrimStart(s);
    var r := TrimEnd(t);
    assert r == [] || r[0] == t[0];
    r
  }

  /** How many leading whitespace characters `trim` removes. */
  function TrimOffset(s: string): nat {
    |s| - |TrimStart(s)|
  }

  /** The trim is the slice of `s` between a whitespace-only head and a whitespace-only tail. */
  lemma TrimIsSlice(s: string)
    ensures var r := Trim(s); var i := TrimOffset(s);
      && i + |r| <= |s| && r == s[i..i + |r|]
      && (forall k :: 0 <= k < i ==> IsWhitespace(s[k]))
      && (forall k :: i + |r| <= k < |s| ==> IsWhitespace(s[k]))
  {
    var t := TrimStart(s);
    var r := TrimEnd(t);
    var i := |s| - |t|;
    TrimStartDropsWhitespace(s);
    TrimEndDropsWhitespace(t);
    assert Trim(s) == r && TrimOffset(s) == i;
    assert t == s[i..];
    assert r == s[i..i + |r|] by {
      assert r == t[..|r|];
    }
    forall k | i + |r| <= k < |s|
      ensures IsWhitespace(s[k])
    {
      assert s[k] == t[k - i];
    }
  }

  /** A string with no whitespace at either end is its own trim. */
  lemma TrimOfTrimmed(s: string)
    requires s == [] || (!IsWhitespace(s[0]) && !IsWhitespace(s[|s| - 1]))
    ensures Trim(s) == s
  {
    var t := TrimStart(s);
    assert t == s;
  }

  /** Trimming twice is trimming once. */
  lemma TrimIdempotent(s: string)
    ensures Trim(Trim(s)) == Trim(s)
  {
    TrimOfTrimmed(Trim(s));
  }

  /** `trim()` yields the empty string exactly for whitespace-only input. */
  lemma TrimEmptyIffBlank(s: string)
    ensures Trim(s) == [] <==> IsBlank(s)
  {
    var t := TrimStart(s);
    var i := |s| - |t|;
    TrimStartDropsWhitespace(s);
    TrimEndDropsWhitespace(t);
    if Trim(s) != [] {
      assert t != [] && !IsWhitespace(t[0]) && t[0] == s[i];
    } else {
      assert t == [];
    }
  }

  /** Text that is not blank trims to a non-empty string with no whitespace at either end. */
  lemma TrimOfText(s: string)
    requires !IsBlank(s)
    ensures Trim(s) != [] && IsTrimmed(Trim(s))
  {
    TrimEmptyIffBlank(s);
  }

  /** `s.replace(/c+$/, '')`: every trailing occurrence of `c` removed. */
  function DropTrailing(s: string, c: char): (r: string)
    ensures |r| <= |s| && r == s[..|r|]
    ensures forall k :: |r| <= k < |s| ==> s[k] == c
    ensures r == [] || r[|r| - 1] != c
  {
    if |s| > 0 && s[|s| - 1] == c then DropTrailing(s[..|s| - 1], c) else s
  }

  predicate StartsWith(s: string, prefix: string) {
    prefix <= s
  }

  predicate EndsWith(s: string, suffix: string) {
    |suffix| <= |s| && s[|s| - |suffix|..] == suffix
  }

  lemma PrefixOfConcat(p: string, s: string, t: string)
    requires StartsWith(s, p)
    ensures StartsWith(s + t, p)
  {
    assert (s + t)[..|p|] == s[..|p|];
  }

  lemma EndsWithConcat(s: string, t: string)
    ensures EndsWith(s + t, t)
    ensures t != [] ==> (s + t)[|s + t| - 1] == t[|t| - 1]
  {
    assert (s + t)[|s|..] == t;
  }

  /** `toUpperCase` on one character, for the ASCII letters. */
  function UpperChar(c: char): char {
    if 'a' <= c <= 'z' then (c as int - 'a' as int + 'A' as int) as char else c
  }

  predicate IsLowerAscii(c: char) {
    'a' <= c <= 'z'
  }

  /** `s.toUpperCase()` restricted to ASCII: the characters are mapped one by one. */
  function ToUpper(s: string): (r: string)
    ensures |r| == |s|
    ensures forall k :: 0 <= k < |r| ==> r[k] == UpperChar(s[k])
  {
    seq(|s|, k requires 0 <= k < |s| => UpperChar(s[k]))
  }

  /**
   * Upper-casing leaves no lower-case ASCII letter, changes nothing but such
   * letters, and so never turns whitespace into text or back.
   */
  lemma ToUpperChanges(s: string)
    ensures var r := ToUpper(s);
      && (forall k :: 0 <= k < |r| ==> !IsLowerAscii(r[k]))
      && (forall k :: 0 <= k < |r| ==> (r[k] == s[k] || IsLowerAscii(s[k])))
      && (forall k :: 0 <= k < |r| ==> (IsWhitespace(r[k]) <==> IsWhitespace(s[k])))
  {
  }

  /** Upper-casing a string with no whitespace at either end keeps it so: trimming the result changes nothing. */
  lemma UpperOfTrimmed(s: string)
    requires IsTrimmed(s)
    ensures IsTrimmed(ToUpper(s)) && Trim(ToUpper(s)) == ToUpper(s)
  {
    var u := ToUpper(s);
    if s != [] {
      assert IsWhitespace(u[0]) <==> IsWhitespace(s[0]);
      assert IsWhitespace(u[|u| - 1]) <==> IsWhitespace(s[|s| - 1]);
    }
    TrimOfTrimmed(u);
  }

  /** Upper-casing an upper-cased string changes nothing. */
  lemma ToUpperIdempotent(s: string)
    ensures ToUpper(ToUpper(s)) == ToUpper(s)
  {
  }

  /**
   * The relational `a < b` on strings: `a` is a proper prefix of `b`, or at the
   * first position where they differ `a` has the smaller character.
   */
  predicate Less(a: string, b: string)
    decreases |a|
  {
    |b| > 0 && (|a| == 0 || a[0] < b[0] || (a[0] == b[0] && Less(a[1..], b[1..])))
  }

  /**
   * `<` is decided at the first position where the strings differ, and a
   * proper prefix is below the longer string.
   */
  lemma {:induction false} LessIffFirstDifference(a: string, b: string)
    ensures Less(a, b) <==>
              exists k :: 0 <= k <= |a| && k < |b| && a[..k] == b[..k] && (k == |a| || a[k] < b[k])
    decreases |a|
  {
    if |a| > 0 && |b| > 0 {
      if a[0] == b[0] {
        var a', b' := a[1..], b[1..];
        LessIffFirstDifference(a', b');
        if Less(a, b) {
          var k :| 0 <= k <= |a'| && k < |b'| && a'[..k] == b'[..k] && (k == |a'| || a'[k] < b'[k]);
          assert a[..k + 1] == [a[0]] + a'[..k];
          assert b[..k + 1] == [b[0]] + b'[..k];
        } else {
          forall k | 0 <= k <= |a| && k < |b| && a[..k] == b[..k]
            ensures !(k == |a| || a[k] < b[k])
          {
            if k > 0 {
              assert a'[..k - 1] == a[..k][1..];
              assert b'[..k - 1] == b[..k][1..];
            }
          }
        }
      } else if a[0] < b[0] {
        assert a[..0] == b[..0];
      } else {
        forall k | 0 <= k <= |a| && k < |b| && a[..k] == b[..k]
          ensures !(k == |a| || a[k] < b[k])
        {
        }
      }
    } else if |b| > 0 {
      assert a[..0] == b[..0];
    }
  }

  /** No string is below itself. */
  lemma {:induction false} LessIrreflexive(a: string)
    ensures !Less(a, a)
    decreases |a|
  {
    if |a| > 0 {
      LessIrreflexive(a[1..]);
    }
  }

  /**
   * Comparing two strings that start with blocks of equal length compares the
   * blocks first and the remainders only when the blocks are equal.
   */
  lemma {:induction false} LessConcat(a1: string, b1: string, a2: string, b2: string)
    requires |a1| == |a2|
    ensures Less(a1 + b1, a2 + b2) <==> Less(a1, a2) || (a1 == a2 && Less(b1, b2))
    decreases |a1|
  {
    if |a1| == 0 {
      assert a1 + b1 == b1 && a2 + b2 == b2;
      assert !Less(a1, a2);
    } else {
      assert (a1 + b1)[0] == a1[0] && (a2 + b2)[0] == a2[0];
      assert (a1 + b1)[1..] == a1[1..] + b1;
      assert (a2 + b2)[1..] == a2[1..] + b2;
      LessConcat(a1[1..], b1, a2[1..], b2);
      if a1[0] == a2[0] {
        assert a1 == a2 <==> a1[1..] == a2[1..] by {
          if a1[1..] == a2[1..] {
            assert a1 == [a1[0]] + a1[1..] && a2 == [a2[0]] + a2[1..];
          }
        }
      }
    }
  }

  /** A common prefix does not affect the comparison. */
  lemma LessAfterCommonPrefix(p: string, x: string, y: string)
    ensures Less(p + x, p + y) <==> Less(x, y)
  {
    LessConcat(p, x, p, y);
    LessIrreflexive(p);
  }
}
