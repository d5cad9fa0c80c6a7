/** The counters of the password check: how many bytes of the password
    strchr finds in a given C string. */
module Counting {
  import opened CStrings
  import opened CharClasses

  /** Number of positions of s whose byte strchr finds in chars; defined on
      the last byte so that it follows a left-to-right scan. */
  function CountIn(chars: CString, s: seq<byte>): (n: nat)
    ensures n <= |s|
  {
    if s == [] then 0
    else CountIn(chars, s[..|s| - 1]) + (if Occurs(chars, s[|s| - 1]) then 1 else 0)
  }

  /** One more byte of the scan advances the counter by its own match. */
  lemma CountStep(chars: CString, s: seq<byte>, i: nat)
    requires i < |s|
    ensures CountIn(chars, s[..i + 1]) == CountIn(chars, s[..i]) + if Occurs(chars, s[i]) then 1 else 0
  {
    assert s[..i + 1][..i] == s[..i];
  }

  /** The positions of s whose byte strchr finds in chars. */
  ghost function Positions(chars: CString, s: seq<byte>): set<nat> {
    set i: nat | i < |s| && Occurs(chars, s[i])
  }

  /** The positions of s are those of its prefix, plus the last one if it matches. */
  lemma PositionsStep(chars: CString, s: seq<byte>)
    requires s != []
    ensures var n := |s| - 1;
      Positions(chars, s) == Positions(chars, s[..n]) + (if Occurs(chars, s[n]) then {n} else {})
  {
    var n := |s| - 1;
    forall i: nat | i < n
      ensures s[..n][i] == s[i]
    {
    }
  }

  /** The counter is exactly the number of matching positions. */
  lemma {:induction false} CountIsPositions(chars: CString, s: seq<byte>)
    ensures CountIn(chars, s) == |Positions(chars, s)|
  {
    if s != [] {
      var n := |s| - 1;
      CountIsPositions(chars, s[..n]);
      PositionsStep(chars, s);
      assert n !in Positions(chars, s[..n]);
    }
  }

  /** The counter is positive exactly when some byte is found. */
  lemma {:induction false} CountPositive(chars: CString, s: seq<byte>)
    ensures CountIn(chars, s) > 0 <==> exists i :: 0 <= i < |s| && Occurs(chars, s[i])
  {
    if s != [] {
      var n := |s| - 1;
      CountPositive(chars, s[..n]);
      if exists i :: 0 <= i < n && Occurs(chars, s[..n][i]) {
        var i :| 0 <= i < n && Occurs(chars, s[..n][i]);
        assert s[i] == s[..n][i];
      }
      if exists i :: 0 <= i < |s| && Occurs(chars, s[i]) {
        var i :| 0 <= i < |s| && Occurs(chars, s[i]);
        if i < n {
          assert s[..n][i] == s[i];
        }
      }
    }
  }

  /** Counting distributes over concatenation. */
  lemma {:induction false} CountAppend(chars: CString, s: seq<byte>, t: seq<byte>)
    ensures CountIn(chars, s + t) == CountIn(chars, s) + CountIn(chars, t)
  {
    if t == [] {
      assert s + t == s;
    } else {
      var m := |t| - 1;
      CountAppend(chars, s, t[..m]);
      assert (s + t)[..|s + t| - 1] == s + t[..m];
      assert (s + t)[|s + t| - 1] == t[m];
    }
  }

  /** The counter depends only on the multiset of bytes, not on their order. */
  lemma {:induction false} CountPermutation(chars: CString, a: seq<byte>, b: seq<byte>)
    requires multiset(a) == multiset(b)
    ensures CountIn(chars, a) == CountIn(chars, b)
  {
    if a == [] {
      assert |b| == |multiset(b)| == 0;
    } else {
      var n := |a| - 1;
      var x := a[n];
      assert x in multiset(b) by { assert x in multiset(a); }
      var j :| 0 <= j < |b| && b[j] == x;
      var rest := b[..j] + b[j + 1..];
      assert b == b[..j] + [x] + b[j + 1..];
      assert a == a[..n] + [x];
      assert multiset(a) == multiset(a[..n]) + multiset{x};
      assert multiset(b) == multiset(b[..j]) + multiset{x} + multiset(b[j + 1..]);
      assert multiset(rest) == multiset(b[..j]) + multiset(b[j + 1..]);
      assert multiset(a[..n]) == multiset(a) - multiset{x};
      assert multiset(rest) == multiset(b) - multiset{x};
      CountPermutation(chars, a[..n], rest);
      CountAppend(chars, b[..j] + [x], b[j + 1..]);
      CountAppend(chars, b[..j], [x]);
      CountAppend(chars, b[..j], b[j + 1..]);
      CountAppend(chars, a[..n], [x]);
      assert [x][..0] == [];
    }
  }

  /** How many of the four class counters a single byte advances. */
  function ClassHits(b: byte): nat {
    (if IsLower(b) then 1 else 0) + (if IsUpper(b) then 1 else 0) +
    (if IsDigit(b) then 1 else 0) + (if IsSpecial(b) then 1 else 0)
  }

  /** A non-NUL byte advances at most one class counter. */
  lemma ClassHitsAtMostOne(b: byte)
    requires b != 0
    ensures ClassHits(b) <= 1
  {
    ClassesDisjoint(b);
  }

  /** Because the classes are disjoint, the four class counters of a C string
      add up to at most its length. */
  lemma {:induction false} ClassCountsBounded(s: CString)
    ensures CountIn(LowerCaseChars, s) + CountIn(UpperCaseChars, s) +
            CountIn(DigitChars, s) + CountIn(SpecialChars, s) <= |s|
  {
    if s != [] {
      var n := |s| - 1;
      ClassCountsBounded(s[..n]);
      ClassHitsAtMostOne(s[n]);
    }
  }
}
