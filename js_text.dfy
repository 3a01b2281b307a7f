/** The few JavaScript string operations the peer network relies on, given a
    meaning over `seq<char>`: the `<` comparison used by the connection
    tie-break, the rendering of a port number inside a template literal, and
    `String.prototype.substring` with one argument. */
module JsText {

  /** JavaScript's `a < b` on strings: the first differing character decides;
      a proper prefix is smaller than the longer string. */
  predicate Less(a: string, b: string)
    ensures Less(a, b) ==> a != b
    ensures |a| < |b| && a == b[..|a|] ==> Less(a, b)
    decreases |a|
  {
    if |a| == 0 then |b| > 0
    else if |b| == 0 then false
    else if a[0] != b[0] then a[0] < b[0]
    else
      assert |a| < |b| && a == b[..|a|] ==> a[1..] == b[1..][..|a| - 1];
      Less(a[1..], b[1..])
  }

  lemma {:induction false} LessAsymmetric(a: string, b: string)
    ensures !(Less(a, b) && Less(b, a))
    decreases |a|
  {
    if |a| > 0 && |b| > 0 && a[0] == b[0] {
      LessAsymmetric(a[1..], b[1..]);
    }
  }

  /** Two different strings are always ordered one way or the other. */
  lemma {:induction false} LessConnected(a: string, b: string)
    requires a != b
    ensures Less(a, b) || Less(b, a)
    decreases |a|
  {
    if |a| > 0 && |b| > 0 && a[0] == b[0] {
      assert a == [a[0]] + a[1..] && b == [b[0]] + b[1..];
      LessConnected(a[1..], b[1..]);
    }
  }

  /** A common prefix does not influence the comparison. */
  lemma {:induction false} LessSharedPrefix(p: string, x: string, y: string)
    ensures Less(p + x, p + y) <==> Less(x, y)
    decreases |p|
  {
    if |p| > 0 {
      assert (p + x)[0] == p[0] == (p + y)[0];
      assert (p + x)[1..] == p[1..] + x;
      assert (p + y)[1..] == p[1..] + y;
      assert Less(p + x, p + y) == Less(p[1..] + x, p[1..] + y);
      LessSharedPrefix(p[1..], x, y);
    } else {
      assert p + x == x && p + y == y;
    }
  }

  predicate IsDigit(c: char) {
    '0' <= c <= '9'
  }

  predicate AllDigits(s: string) {
    forall i :: 0 <= i < |s| ==> IsDigit(s[i])
  }

  function DigitChar(d: nat): (c: char)
    requires d < 10
    ensures IsDigit(c) && (c as int) - ('0' as int) == d
  {
    (('0' as int) + d) as char
  }

  /** The decimal rendering JavaScript gives a port number in a template
      literal such as `${port}`. */
  function NatToString(n: nat): (s: string)
    ensures |s| >= 1 && AllDigits(s)
    decreases n
  {
    if n < 10 then [DigitChar(n)] else NatToString(n / 10) + [DigitChar(n % 10)]
  }

  /** The value of a string of decimal digits: the inverse of NatToString. */
  function DigitsValue(s: string): nat
    requires AllDigits(s)
    decreases |s|
  {
    if s == [] then 0
    else DigitsValue(s[..|s| - 1]) * 10 + ((s[|s| - 1] as int) - ('0' as int))
  }

  lemma {:induction false} NatToStringRoundTrip(n: nat)
    ensures DigitsValue(NatToString(n)) == n
    decreases n
  {
    if n >= 10 {
      var s := NatToString(n);
      assert s[..|s| - 1] == NatToString(n / 10);
      NatToStringRoundTrip(n / 10);
    }
  }

  /** The name `${addr}:${port}` under which the network files a peer and the
      chat application names a new partner. */
  function PeerName(addr: string, port: nat): (name: string)
    ensures |name| > |addr| + 1 && name[..|addr|] == addr && name[|addr|] == ':'
    ensures name[|addr| + 1..] == NatToString(port) && AllDigits(name[|addr| + 1..])
  {
    var name := addr + ":" + NatToString(port);
    assert name[|addr| + 1..] == NatToString(port);
    name
  }

  /** The length of the longest suffix of `s` made of digits. */
  function TrailingDigits(s: string): (n: nat)
    ensures n <= |s|
    decreases |s|
  {
    if s == [] || !IsDigit(s[|s| - 1]) then 0 else 1 + TrailingDigits(s[..|s| - 1])
  }

  lemma {:induction false} TrailingDigitsOfName(a: string, digits: string)
    requires AllDigits(digits)
    ensures TrailingDigits(a + ":" + digits) == |digits|
    decreases |digits|
  {
    var s := a + ":" + digits;
    if digits == [] {
      assert s[|s| - 1] == ':';
    } else {
      assert s[..|s| - 1] == a + ":" + digits[..|digits| - 1];
      TrailingDigitsOfName(a, digits[..|digits| - 1]);
    }
  }

  /** Because a port renders as digits only, a peer name determines both the
      address and the port it was made from, whatever the address holds. */
  lemma PeerNameInjective(a: string, p: nat, b: string, q: nat)
    requires PeerName(a, p) == PeerName(b, q)
    ensures a == b && p == q
  {
    var s := PeerName(a, p);
    var ps, qs := NatToString(p), NatToString(q);
    TrailingDigitsOfName(a, ps);
    TrailingDigitsOfName(b, qs);
    assert ps == s[|s| - |ps|..] == qs;
    NatToStringRoundTrip(p);
    NatToStringRoundTrip(q);
    assert a == s[..|a|] == b;
  }

  /** `s.substring(start)` for a start index that is not negative: the suffix
      from `start`, or the empty string when `start` is past the end. */
  function SubstringFrom(s: string, start: nat): (r: string)
    ensures start <= |s| ==> s == s[..start] + r
    ensures start >= |s| ==> r == ""
  {
    if start <= |s| then s[start..] else ""
  }
}
