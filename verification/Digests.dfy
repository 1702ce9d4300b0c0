/**
 Length-framed digests.  A digest is known by the bytes hashed into it, so that different input gives
 different digests; the 64 hexadecimal characters of a digest can themselves be hashed again.
 */
module Digests {
  /**
   Text as its UTF-8 code units.  A unit of 256 and more stands for a lone surrogate, which has no
   UTF-8 form; where errors are replaced it is encoded as a question mark.
   */
  type Utf8 = string

  predicate IsEncodable(text: Utf8) {
    forall i | 0 <= i < |text| :: text[i] as int < 256
  }

  function Replaced(unit: char): char {
    if unit as int < 256 then unit else '?'
  }

  /** The bytes of the text, with errors replaced. */
  function Encoded(text: Utf8): (bytes: Utf8)
    ensures |bytes| == |text| && IsEncodable(bytes)
    ensures IsEncodable(text) ==> bytes == text
  {
    seq(|text|, i requires 0 <= i < |text| => Replaced(text[i]))
  }

  datatype Digest = Sha256(preimage: seq<Atom>)

  /** A byte, the 64 characters of a digest, or the first sixteen of them. */
  datatype Atom = Octet(unit: char) | Hex(digest: Digest) | HexHead(digest: Digest)

  const FRAME_BYTES := 8

  const FRAME_LIMIT := 0x1_0000_0000_0000_0000

  function AtomSize(a: Atom): (n: nat)
    ensures n >= 1
  {
    match a
    case Octet(_) => 1
    case Hex(_) => 64
    case HexHead(_) => 16
  }

  function Size(atoms: seq<Atom>): nat {
    if atoms == [] then 0 else AtomSize(atoms[0]) + Size(atoms[1..])
  }

  function Octets(text: Utf8): seq<Atom> {
    seq(|text|, i requires 0 <= i < |text| => Octet(Replaced(text[i])))
  }

  function BigEndian(n: nat, width: nat): (octets: seq<Atom>)
    ensures |octets| == width
  {
    if width == 0 then [] else BigEndian(n / 256, width - 1) + [Octet((n % 256) as char)]
  }

  /** One part as it enters the hash: its length in eight bytes, then the part. */
  function Framed(part: seq<Atom>): seq<Atom> {
    BigEndian(Size(part), FRAME_BYTES) + part
  }

  /** The parts fed to the hash one after the other. */
  function Stream(parts: seq<seq<Atom>>): seq<Atom> {
    if parts == [] then [] else Stream(parts[..|parts| - 1]) + Framed(parts[|parts| - 1])
  }

  ghost predicate Fit(parts: seq<seq<Atom>>) {
    forall i | 0 <= i < |parts| :: Size(parts[i]) < FRAME_LIMIT
  }

  function Pow256(width: nat): (p: nat)
    ensures p > 0
  {
    if width == 0 then 1 else 256 * Pow256(width - 1)
  }

  lemma {:induction false} BigEndianIsInjective(m: nat, n: nat, width: nat)
    requires m < Pow256(width) && n < Pow256(width) && BigEndian(m, width) == BigEndian(n, width)
    ensures m == n
  {
    if width > 0 {
      var a, b := BigEndian(m, width), BigEndian(n, width);
      assert a[..width - 1] == BigEndian(m / 256, width - 1) && b[..width - 1] == BigEndian(n / 256, width - 1);
      assert a[width - 1] == Octet((m % 256) as char) && b[width - 1] == Octet((n % 256) as char);
      assert (m % 256) as char == (n % 256) as char;
      assert m % 256 == ((m % 256) as char) as int && n % 256 == ((n % 256) as char) as int;
      BigEndianIsInjective(m / 256, n / 256, width - 1);
    }
  }

  lemma FrameLimit()
    ensures Pow256(FRAME_BYTES) == FRAME_LIMIT
  {
    assert Pow256(4) == 0x1_0000_0000 by { assert Pow256(2) == 0x1_0000; assert Pow256(3) == 0x100_0000; }
    assert Pow256(6) == 0x1_0000_0000_0000 by { assert Pow256(5) == 0x100_0000_0000; }
    assert Pow256(7) == 0x100_0000_0000_0000;
  }

  /** Two prefixes of the same atoms with the same size are the same. */
  lemma {:induction false} PrefixesOfEqualSize(p: seq<Atom>, s: seq<Atom>, q: seq<Atom>, t: seq<Atom>)
    requires p + s == q + t && Size(p) == Size(q)
    ensures p == q && s == t
  {
    if p != [] && q != [] {
      assert p[0] == (p + s)[0] == (q + t)[0] == q[0];
      assert p[1..] + s == (p + s)[1..] == (q + t)[1..] == q[1..] + t;
      PrefixesOfEqualSize(p[1..], s, q[1..], t);
    } else {
      assert p == [] && q == [];
      assert s == p + s && t == q + t;
    }
  }

  lemma SplitAt(a: seq<Atom>, p: seq<Atom>, s: seq<Atom>, b: seq<Atom>, q: seq<Atom>, t: seq<Atom>)
    requires a + p + s == b + q + t && |a| == |b|
    ensures a == b && p + s == q + t
  {
    assert a == (a + p + s)[..|a|] && b == (b + q + t)[..|a|];
    assert p + s == (a + p + s)[|a|..] && q + t == (b + q + t)[|a|..];
  }

  lemma FramesArePrefixFree(p: seq<Atom>, s: seq<Atom>, q: seq<Atom>, t: seq<Atom>)
    requires Size(p) < FRAME_LIMIT && Size(q) < FRAME_LIMIT && Framed(p) + s == Framed(q) + t
    ensures p == q && s == t
  {
    SplitAt(BigEndian(Size(p), FRAME_BYTES), p, s, BigEndian(Size(q), FRAME_BYTES), q, t);
    FrameLimit();
    BigEndianIsInjective(Size(p), Size(q), FRAME_BYTES);
    PrefixesOfEqualSize(p, s, q, t);
  }

  lemma {:induction false} StreamFromFront(parts: seq<seq<Atom>>)
    requires parts != []
    ensures Stream(parts) == Framed(parts[0]) + Stream(parts[1..])
  {
    if |parts| > 1 {
      StreamFromFront(parts[..|parts| - 1]);
      assert parts[..|parts| - 1][1..] == parts[1..][..|parts| - 2];
    } else {
      assert parts[..0] == [];
    }
  }

  /** Different lists of parts hash different bytes, however the parts are cut. */
  lemma {:induction false} StreamIsInjective(ps: seq<seq<Atom>>, qs: seq<seq<Atom>>)
    requires Fit(ps) && Fit(qs) && Stream(ps) == Stream(qs)
    ensures ps == qs
    decreases |ps|
  {
    if ps != [] && qs != [] {
      StreamFromFront(ps);
      StreamFromFront(qs);
      FramesArePrefixFree(ps[0], Stream(ps[1..]), qs[0], Stream(qs[1..]));
      StreamIsInjective(ps[1..], qs[1..]);
    } else if ps != [] {
      StreamFromFront(ps);
    } else if qs != [] {
      StreamFromFront(qs);
    }
  }

  lemma {:induction false} OctetsSize(text: Utf8)
    ensures Size(Octets(text)) == |text|
  {
    if text != [] {
      OctetsSize(text[1..]);
      assert Octets(text)[1..] == Octets(text[1..]);
    }
  }

  /** Hashing tells two texts apart exactly when their bytes differ. */
  lemma OctetsAreInjective(s: Utf8, t: Utf8)
    ensures Octets(s) == Octets(t) <==> Encoded(s) == Encoded(t)
  {
    if Octets(s) == Octets(t) {
      assert |s| == |Octets(s)| == |Octets(t)| == |t|;
      forall i | 0 <= i < |s| ensures Encoded(s)[i] == Encoded(t)[i] {
        assert Octets(s)[i] == Octets(t)[i];
      }
    }
    if Encoded(s) == Encoded(t) {
      forall i | 0 <= i < |s| ensures Octets(s)[i] == Octets(t)[i] {
        assert Octets(s)[i] == Octet(Encoded(s)[i]) && Octets(t)[i] == Octet(Encoded(t)[i]);
      }
    }
  }

  function Digit(d: nat): char
    requires d < 10
  {
    ('0' as int + d) as char
  }

  lemma DigitIsInjective(d: nat, e: nat)
    requires d < 10 && e < 10 && Digit(d) == Digit(e)
    ensures d == e
  {
    assert Digit(d) as int == '0' as int + d && Digit(e) as int == '0' as int + e;
  }

  function Decimal(n: nat): (digits: Utf8)
    ensures |digits| >= 1 && IsEncodable(digits)
  {
    if n < 10 then [Digit(n)] else Decimal(n / 10) + [Digit(n % 10)]
  }

  lemma {:induction false} DecimalIsInjective(m: nat, n: nat)
    requires Decimal(m) == Decimal(n)
    ensures m == n
  {
    if m < 10 {
      assert |Decimal(n)| == 1;
      assert n < 10 && Decimal(m)[0] == Decimal(n)[0];
      DigitIsInjective(m, n);
    } else {
      assert |Decimal(m)| == |Decimal(m / 10)| + 1;
      SnocIsInjective(Decimal(m / 10), Digit(m % 10), Decimal(n / 10), Digit(n % 10));
      DigitIsInjective(m % 10, n % 10);
      DecimalIsInjective(m / 10, n / 10);
    }
  }

  lemma SnocIsInjective(s: Utf8, c: char, t: Utf8, d: char)
    requires s + [c] == t + [d]
    ensures s == t && c == d
  {
    assert s == (s + [c])[..|s|] && t == (t + [d])[..|t|];
    assert c == (s + [c])[|s|] && d == (t + [d])[|t|];
  }
}
