/**
  Small shared vocabulary: optional values (Java's null), results carrying
  the exception a call throws, and the few string operations of the JDK that
  the generator relies on (String.trim, Character.toUpperCase on the first
  letter of a field name, Integer.toString).
 */
module Base {

  /** A Java reference that may be null. */
  datatype Option<+T> = None | Some(value: T)

  /** The exceptions the generator lets escape to its caller. */
  datatype Error =
    | NullPointer                 // a null row, a null field name
    | NoSuchField(name: string)   // Class.getDeclaredField found nothing
    | NoSuchConstructor           // the record class has no no-argument constructor
    | StringIndexOutOfBounds      // charAt(0) on an empty field name
    | IllegalState                // getStringCellValue on a non-text cell
    | IllegalArgument(setter: string)  // Method.invoke with an argument of the wrong type

  /** Either the value a call returns or the exception it throws. */
  datatype Result<+T> = Success(value: T) | Failure(error: Error)

  /** The characters String.trim removes: every code point up to U+0020. */
  predicate IsTrimmed(c: char) {
    c <= ' '
  }

  function TrimStart(s: string): (r: string)
    ensures |r| <= |s| && r == s[|s| - |r|..]
    ensures |r| == 0 || !IsTrimmed(r[0])
    ensures forall i :: 0 <= i < |s| - |r| ==> IsTrimmed(s[i])
  {
    if |s| > 0 && IsTrimmed(s[0]) then TrimStart(s[1..]) else s
  }

  function TrimEnd(s: string): (r: string)
    ensures |r| <= |s| && r == s[..|r|]
    ensures |r| == 0 || !IsTrimmed(r[|r| - 1])
    ensures forall i :: |r| <= i < |s| ==> IsTrimmed(s[i])
  {
    if |s| > 0 && IsTrimmed(s[|s| - 1]) then TrimEnd(s[..|s| - 1]) else s
  }

  /** r occurs in s starting at index i. */
  predicate InfixAt(r: string, s: string, i: int) {
    0 <= i && i + |r| <= |s| && r == s[i..i + |r|]
  }

  /** String.trim: the infix of s left once every control character and
      space is removed from both ends. */
  function Trim(s: string): (r: string)
    ensures exists i :: InfixAt(r, s, i) && (forall k :: 0 <= k < i ==> IsTrimmed(s[k]))
                        && (forall k :: i + |r| <= k < |s| ==> IsTrimmed(s[k]))
    ensures |r| == 0 || (!IsTrimmed(r[0]) && !IsTrimmed(r[|r| - 1]))
  {
    var t := TrimStart(s);
    var r := TrimEnd(t);
    assert r == s[|s| - |t|..][..|r|] == s[|s| - |t|..|s| - |t| + |r|];
    assert InfixAt(r, s, |s| - |t|);
    r
  }

  /** Character.toUpperCase, for the ASCII letters only. */
  function UpperCase(c: char): (u: char)
    ensures 'a' <= c <= 'z' ==> 'A' <= u <= 'Z' && u as int - c as int == 'A' as int - 'a' as int
    ensures !('a' <= c <= 'z') ==> u == c
  {
    if 'a' <= c <= 'z' then (c as int - 'a' as int + 'A' as int) as char else c
  }

  predicate IsDigit(c: char) {
    '0' <= c <= '9'
  }

  /** The value of a non-empty string of decimal digits. */
  function DigitsValue(s: string): nat
    requires forall i :: 0 <= i < |s| ==> IsDigit(s[i])
  {
    if |s| == 0 then 0 else assert IsDigit(s[|s| - 1]); 10 * DigitsValue(s[..|s| - 1]) + (s[|s| - 1] as int - '0' as int)
  }

  /** The decimal digits of n, most significant first, without leading zeros. */
  function NatText(n: nat): (r: string)
    ensures |r| >= 1 && forall i :: 0 <= i < |r| ==> IsDigit(r[i])
    ensures r[0] == '0' ==> n == 0
    ensures DigitsValue(r) == n
  {
    var last := [('0' as int + n % 10) as char];
    if n < 10 then
      assert last[..0] == [];
      last
    else
      var r := NatText(n / 10) + last;
      assert r[..|r| - 1] == NatText(n / 10);
      r
  }

  /** Integer.toString / Long.toString. */
  function IntText(i: int): (r: string)
    ensures |r| >= 1
    ensures (r[0] == '-') <==> i < 0
  {
    if i < 0 then "-" + NatText(-i) else NatText(i)
  }
}
