/** C strings as the password check sees them: a NUL-terminated run of bytes
    and strchr. strlen of such a string is the length |s| of the sequence. */
module CStrings {

  datatype Option<T> = None | Some(value: T)

  /** A C `char`, taken as its unsigned byte value. */
  newtype byte = b: int | 0 <= b < 256

  /** The bytes of a C string before its terminating NUL; none of them is NUL. */
  type CString = s: seq<byte> | forall i | 0 <= i < |s| :: s[i] != 0

  /** strchr(s, c): scans s byte by byte and stops at the first byte equal
      to c, or at the terminator. Like the C function it also finds the
      terminator itself when c is NUL. The result is the offset of the byte
      found (|s| stands for the terminator), or None for a NULL pointer. */
  function StrChr(s: CString, c: byte): (r: Option<nat>)
    ensures r.Some? ==> r.value <= |s|
  {
    if s == [] then
      if c == 0 then Some(0) else None
    else if s[0] == c then
      Some(0)
    else
      match StrChr(s[1..], c)
      case Some(k) => Some(k + 1)
      case None => None
  }

  /** strchr finds c exactly when c is NUL or occurs in s, and then points
      at its first occurrence, or at the terminator for NUL. */
  lemma {:induction false} StrChrFindsFirst(s: CString, c: byte)
    ensures StrChr(s, c).Some? <==> (c == 0 || c in s)
    ensures StrChr(s, c).Some? ==>
      var k := StrChr(s, c).value;
      k <= |s| && c !in s[..k] && (k < |s| ==> s[k] == c) && (k == |s| ==> c == 0)
  {
    if s != [] && s[0] != c {
      StrChrFindsFirst(s[1..], c);
      assert c in s <==> c in s[1..];
      if StrChr(s[1..], c).Some? {
        var k := StrChr(s[1..], c).value;
        assert s[..k + 1] == [s[0]] + s[1..][..k];
      }
    }
  }

  /** strchr(s, c) != NULL */
  predicate Occurs(s: CString, c: byte) {
    StrChr(s, c).Some?
  }

  /** For a byte that is not NUL, strchr is plain membership. */
  lemma OccursIsMembership(s: CString, c: byte)
    requires c != 0
    ensures Occurs(s, c) <==> c in s
  {
    StrChrFindsFirst(s, c);
  }
}
