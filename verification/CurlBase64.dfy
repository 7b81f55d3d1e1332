/**
 curl's base64 (RFC 4648 section 4): what the decoder accepts, and that it is the inverse of the
 encoder.
 */
module CurlBase64 {
  import opened Text

  const PAD: byte := 61

  // ---- the alphabet ----

  function Char(v: nat): (c: byte)
    requires v < 64
    ensures c != NUL && c != PAD
  {
    if v < 26 then 65 + v else if v < 52 then 71 + v else if v < 62 then v - 4 else if v == 62 then PLUS else SLASH
  }

  function ValueOf(c: byte): (v: Option<nat>)
    ensures v.Some? ==> v.value < 64 && Char(v.value) == c
  {
    if 65 <= c <= 90 then Some(c - 65)
    else if 97 <= c <= 122 then Some(c - 71)
    else if 48 <= c <= 57 then Some(c + 4)
    else if c == PLUS then Some(62)
    else if c == SLASH then Some(63)
    else None
  }

  lemma ValueOfChar(v: nat)
    requires v < 64
    ensures ValueOf(Char(v)) == Some(v)
  {
  }

  // ---- encoding ----

  function Encode(b: Bytes): (r: Bytes)
    ensures |r| == (|b| + 2) / 3 * 4
  {
    if b == [] then []
    else if |b| == 1 then [Char(b[0] / 4), Char(b[0] % 4 * 16), PAD, PAD]
    else if |b| == 2 then [Char(b[0] / 4), Char(b[0] % 4 * 16 + b[1] / 16), Char(b[1] % 16 * 4), PAD]
    else
      [Char(b[0] / 4), Char(b[0] % 4 * 16 + b[1] / 16), Char(b[1] % 16 * 4 + b[2] / 64), Char(b[2] % 64)]
      + Encode(b[3..])
  }

  // ---- decoding ----

  /** The value of one character of a quantum; padding counts as zero bits. */
  function Sextet(c: byte): Option<nat> {
    if c == PAD then Some(0) else ValueOf(c)
  }

  function Pads(s: Bytes): nat {
    if s == [] then 0 else (if s[0] == PAD then 1 else 0) + Pads(s[1..])
  }

  /** decodeQuantum on four characters with at most two pads. */
  function Quantum(s: Bytes): (r: Option<Bytes>)
    requires |s| == 4
    ensures r.Some? ==> |r.value| == 3 - Pads(s) && Pads(s) <= 2
  {
    var a, b, c, d := Sextet(s[0]), Sextet(s[1]), Sextet(s[2]), Sextet(s[3]);
    if a == None || b == None || c == None || d == None || Pads(s) > 2 then None
    else
      var x := ((a.value * 64 + b.value) * 64 + c.value) * 64 + d.value;
      Some([x / 65536 % 256, x / 256 % 256, x % 256][..3 - Pads(s)])
  }

  function Quantums(s: Bytes): (r: Option<Bytes>)
    requires |s| % 4 == 0
  {
    if s == [] then Some([])
    else
      var q, rest := Quantum(s[..4]), Quantums(s[4..]);
      if q == None || rest == None then None else Some(q.value + rest.value)
  }

  /** Where the first pad is, or the length. */
  function FirstPad(s: Bytes): (n: nat)
    ensures n <= |s| && (n < |s| ==> s[n] == PAD) && forall i | 0 <= i < n :: s[i] != PAD
  {
    if s == [] || s[0] == PAD then 0 else 1 + FirstPad(s[1..])
  }

  function Padding(s: Bytes): (p: nat)
    ensures p <= 2
  {
    var n := FirstPad(s);
    if n == |s| then 0 else if n + 1 < |s| && s[n + 1] == PAD then 2 else 1
  }

  /** Curl_base64_decode on a C string. */
  function Decode(s: Bytes): Option<Bytes> {
    if s == [] || |s| % 4 != 0 || FirstPad(s) + Padding(s) != |s| then None else Quantums(s)
  }

  // ---- what is accepted ----

  /** Characters of the alphabet, then p pads, in groups of four. */
  predicate Base64Text(s: Bytes, p: nat) {
    && s != [] && |s| % 4 == 0 && p <= 2
    && (forall i | 0 <= i < |s| - p :: ValueOf(s[i]).Some?)
    && (forall i | |s| - p <= i < |s| :: s[i] == PAD)
  }

  lemma PadsOf(s: Bytes)
    requires |s| == 4
    ensures Pads(s) == (if s[0] == PAD then 1 else 0) + (if s[1] == PAD then 1 else 0)
                       + (if s[2] == PAD then 1 else 0) + (if s[3] == PAD then 1 else 0)
  {
    assert s[1..][1..] == s[2..] && s[2..][1..] == s[3..] && s[3..][1..] == [];
    assert Pads(s[3..]) == if s[3] == PAD then 1 else 0;
    assert Pads(s[2..]) == (if s[2] == PAD then 1 else 0) + Pads(s[3..]);
    assert Pads(s[1..]) == (if s[1] == PAD then 1 else 0) + Pads(s[2..]);
  }

  lemma {:induction false} QuantumsAccept(s: Bytes, p: nat)
    requires |s| % 4 == 0 && p <= 2 && (s == [] ==> p == 0)
    requires forall i | 0 <= i < |s| - p :: s[i] != PAD
    requires forall i | |s| - p <= i < |s| :: s[i] == PAD
    ensures Quantums(s).Some? <==> forall i | 0 <= i < |s| - p :: ValueOf(s[i]).Some?
    ensures Quantums(s).Some? ==> |Quantums(s).value| == |s| / 4 * 3 - p
  {
    hide Quantum;
    if s != [] {
      QuantumAccepts(s[..4]);
      if |s| > 4 {
        QuantumsAccept(s[4..], p);
        assert forall i | 0 <= i < |s| - 4 :: s[4..][i] == s[i + 4];
        assert Pads(s[..4]) == 0 by {
          PadsOf(s[..4]);
        }
        assert Quantums(s[4..]).Some? <==> forall i | 4 <= i < |s| - p :: ValueOf(s[i]).Some? by {
          assert forall i | 4 <= i < |s| - p :: s[i] == s[4..][i - 4];
        }
      } else {
        PadsOf(s[..4]);
        assert s[4..] == [];
      }
    }
  }

  lemma QuantumAccepts(s: Bytes)
    requires |s| == 4
    ensures Quantum(s).Some? <==> Pads(s) <= 2 && forall i | 0 <= i < 4 && s[i] != PAD :: ValueOf(s[i]).Some?
  {
    assert s[0] != PAD ==> ValueOf(s[0]) == Sextet(s[0]);
  }

  /** The decoder accepts exactly the padded texts over the standard alphabet. */
  lemma DecodeAccepts(s: Bytes)
    ensures Decode(s).Some? <==> exists p :: Base64Text(s, p)
    ensures Decode(s).Some? ==> |Decode(s).value| == |s| / 4 * 3 - Padding(s)
  {
    hide Quantums;
    if s != [] && |s| % 4 == 0 && FirstPad(s) + Padding(s) == |s| {
      QuantumsAccept(s, Padding(s));
      if Decode(s).Some? {
        assert Base64Text(s, Padding(s));
      }
    }
    if p :| Base64Text(s, p) {
      PadPlace(s, p);
      QuantumsAccept(s, p);
    }
  }

  lemma PadPlace(s: Bytes, p: nat)
    requires Base64Text(s, p)
    ensures FirstPad(s) == |s| - p && Padding(s) == p
    ensures forall i | 0 <= i < |s| - p :: s[i] != PAD
  {
    var n := FirstPad(s);
    assert forall i | 0 <= i < |s| - p :: ValueOf(s[i]) != None;
    assert p > 0 ==> s[|s| - p] == PAD;
    if n < |s| - p {
      assert false;
    }
    if n > |s| - p {
      assert false;
    }
  }

  // ---- round trips ----

  /** Three bytes and four sextets of one 24-bit number. */
  lemma Regroup(x: nat, y: nat, z: nat, n: nat)
    requires x < 256 && y < 256 && z < 256 && n == (x * 256 + y) * 256 + z
    ensures n / 65536 % 256 == x && n / 256 % 256 == y && n % 256 == z
  {
    assert n / 256 == x * 256 + y;
    assert n / 65536 == n / 256 / 256;
  }

  lemma QuantumIs(s: Bytes, a: nat, b: nat, c: nat, d: nat)
    requires |s| == 4 && Pads(s) <= 2
    requires Sextet(s[0]) == Some(a) && Sextet(s[1]) == Some(b) && Sextet(s[2]) == Some(c) && Sextet(s[3]) == Some(d)
    requires a < 64 && b < 64 && c < 64 && d < 64
    ensures Quantum(s) == Some([a * 4 + b / 16, b % 16 * 16 + c / 4, c % 4 * 64 + d][..3 - Pads(s)])
  {
    var n := ((a * 64 + b) * 64 + c) * 64 + d;
    var x, y, z := a * 4 + b / 16, b % 16 * 16 + c / 4, c % 4 * 64 + d;
    assert n == (x * 256 + y) * 256 + z;
    Regroup(x, y, z, n);
  }

  lemma Halves(x: byte, y: byte, z: byte)
    ensures var a, b, c, d := x / 4, x % 4 * 16 + y / 16, y % 16 * 4 + z / 64, z % 64;
      && a < 64 && b < 64 && c < 64 && d < 64
      && a * 4 + b / 16 == x && b % 16 * 16 + c / 4 == y && c % 4 * 64 + d == z
  {
  }

  lemma QuantumOfThree(x: byte, y: byte, z: byte)
    ensures Quantum([Char(x / 4), Char(x % 4 * 16 + y / 16), Char(y % 16 * 4 + z / 64), Char(z % 64)])
      == Some([x, y, z])
  {
    hide Quantum, Char, ValueOf;
    var a, b, c, d := x / 4, x % 4 * 16 + y / 16, y % 16 * 4 + z / 64, z % 64;
    var s := [Char(a), Char(b), Char(c), Char(d)];
    ValueOfChar(a);
    ValueOfChar(b);
    ValueOfChar(c);
    ValueOfChar(d);
    PadsOf(s);
    Halves(x, y, z);
    QuantumIs(s, a, b, c, d);
    assert [x, y, z][..3] == [x, y, z];
  }

  lemma QuantumOfTwo(x: byte, y: byte)
    ensures Quantum([Char(x / 4), Char(x % 4 * 16 + y / 16), Char(y % 16 * 4), PAD]) == Some([x, y])
  {
    hide Quantum, Char, ValueOf;
    var a, b, c := x / 4, x % 4 * 16 + y / 16, y % 16 * 4;
    var s := [Char(a), Char(b), Char(c), PAD];
    ValueOfChar(a);
    ValueOfChar(b);
    ValueOfChar(c);
    PadsOf(s);
    Halves(x, y, 0);
    QuantumIs(s, a, b, c, 0);
    assert [x, y, 0][..2] == [x, y];
  }

  lemma QuantumOfOne(x: byte)
    ensures Quantum([Char(x / 4), Char(x % 4 * 16), PAD, PAD]) == Some([x])
  {
    hide Quantum, Char, ValueOf;
    var a, b := x / 4, x % 4 * 16;
    var s := [Char(a), Char(b), PAD, PAD];
    ValueOfChar(a);
    ValueOfChar(b);
    PadsOf(s);
    Halves(x, 0, 0);
    QuantumIs(s, a, b, 0, 0);
    assert [x, 0, 0][..1] == [x];
  }

  function PadOf(n: nat): nat { if n % 3 == 0 then 0 else 3 - n % 3 }

  lemma {:induction false} EncodeShape(b: Bytes)
    requires b != []
    ensures Base64Text(Encode(b), PadOf(|b|))
    decreases |b|
  {
    hide Char, ValueOf, Encode;
    if |b| == 1 {
      assert b == [b[0]];
      EncodeOne(b[0]);
      ValueOfChar(b[0] / 4);
      ValueOfChar(b[0] % 4 * 16);
    } else if |b| == 2 {
      assert b == [b[0], b[1]];
      EncodeTwo(b[0], b[1]);
      ValueOfChar(b[0] / 4);
      ValueOfChar(b[0] % 4 * 16 + b[1] / 16);
      ValueOfChar(b[1] % 16 * 4);
    } else {
      ThreeShape(b);
      if |b| > 3 {
        EncodeShape(b[3..]);
        assert PadOf(|b| - 3) == PadOf(|b|);
      } else {
        assert b[3..] == [];
        EncodeEmpty();
      }
      TextGrows(Encode(b[..3]), Encode(b[3..]), PadOf(|b|));
    }
  }

  lemma EncodeEmpty()
    ensures Encode([]) == []
  {
  }

  lemma ThreeShape(b: Bytes)
    requires |b| >= 3
    ensures Encode(b) == Encode(b[..3]) + Encode(b[3..]) && |Encode(b[..3])| == 4
    ensures forall i | 0 <= i < 4 :: ValueOf(Encode(b[..3])[i]).Some?
  {
    hide Char, ValueOf, Encode;
    assert b[..3] == [b[0], b[1], b[2]];
    EncodeThree(b[0], b[1], b[2]);
    ValueOfChar(b[0] / 4);
    ValueOfChar(b[0] % 4 * 16 + b[1] / 16);
    ValueOfChar(b[1] % 16 * 4 + b[2] / 64);
    ValueOfChar(b[2] % 64);
    EncodeAfterThree(b[..3], b[3..]);
    assert b == b[..3] + b[3..];
  }

  lemma TextGrows(q: Bytes, t: Bytes, p: nat)
    requires |q| == 4 && (forall i | 0 <= i < 4 :: ValueOf(q[i]).Some?)
    requires if t == [] then p == 0 else Base64Text(t, p)
    ensures Base64Text(q + t, p)
  {
  }

  lemma {:induction false} QuantumsOfEncode(b: Bytes)
    ensures Quantums(Encode(b)) == Some(b)
  {
    hide Quantum, Char;
    var s := Encode(b);
    if b == [] {
    } else if |b| == 1 {
      QuantumOfOne(b[0]);
      QuantumsLast(s);
      assert b == [b[0]];
    } else if |b| == 2 {
      QuantumOfTwo(b[0], b[1]);
      QuantumsLast(s);
      assert b == [b[0], b[1]];
    } else {
      QuantumOfThree(b[0], b[1], b[2]);
      QuantumsOfEncode(b[3..]);
      assert s[4..] == Encode(b[3..]);
      assert b == [b[0], b[1], b[2]] + b[3..];
    }
  }

  lemma QuantumsLast(s: Bytes)
    requires |s| == 4
    ensures Quantums(s) == Quantum(s)
  {
    hide Quantum;
    assert s[..4] == s && s[4..] == [];
    if Quantum(s).Some? {
      assert Quantum(s).value + [] == Quantum(s).value;
    }
  }

  /** Decoding undoes encoding; the encoded length is exact. */
  lemma DecodeEncode(b: Bytes)
    requires b != []
    ensures Decode(Encode(b)) == Some(b) && |Encode(b)| == (|b| + 2) / 3 * 4
  {
    EncodeShape(b);
    PadPlace(Encode(b), PadOf(|b|));
    QuantumsOfEncode(b);
  }

  /** The bits the pads cut off are zero. */
  predicate CutBitsZero(s: Bytes, p: nat)
    requires Base64Text(s, p)
  {
    var n := |s|;
    if p == 0 then true
    else if p == 1 then ValueOf(s[n - 2]).value % 4 == 0
    else ValueOf(s[n - 3]).value % 16 == 0
  }

  /** Different values have different characters. */
  lemma SameChar(v: nat, w: nat)
    requires v < 64 && w < 64
    ensures Char(v) == Char(w) <==> v == w
  {
    ValueOfChar(v);
    ValueOfChar(w);
  }

  lemma Sextets(a: nat, b: nat, c: nat, d: nat)
    requires a < 64 && b < 64 && c < 64 && d < 64
    ensures var x, y, z := a * 4 + b / 16, b % 16 * 16 + c / 4, c % 4 * 64 + d;
      && x < 256 && y < 256 && z < 256
      && x / 4 == a && x % 4 * 16 + y / 16 == b && y % 16 * 4 + z / 64 == c && z % 64 == d
      && x % 4 * 16 == b - b % 16 && y % 16 * 4 == c - c % 4
  {
  }

  lemma EncodeShort(x: byte, y: byte, z: byte)
    ensures Encode([x, y, z]) == [Char(x / 4), Char(x % 4 * 16 + y / 16), Char(y % 16 * 4 + z / 64), Char(z % 64)]
    ensures Encode([x, y]) == [Char(x / 4), Char(x % 4 * 16 + y / 16), Char(y % 16 * 4), PAD]
    ensures Encode([x]) == [Char(x / 4), Char(x % 4 * 16), PAD, PAD]
  {
    hide Char;
    assert Encode([]) == [];
  }

  /** One quantum read and written again. */
  lemma EncodeOfQuantum(s: Bytes, p: nat)
    requires |s| == 4 && Base64Text(s, p)
    ensures Quantum(s).Some?
    ensures Encode(Quantum(s).value) == s <==> CutBitsZero(s, p)
  {
    hide Char, ValueOf, Quantum, Encode;
    PadsOf(s);
    assert s[0] != PAD && s[1] != PAD;
    var a, b := ValueOf(s[0]).value, ValueOf(s[1]).value;
    var c := if p == 2 then 0 else ValueOf(s[2]).value;
    var d := if p >= 1 then 0 else ValueOf(s[3]).value;
    QuantumIs(s, a, b, c, d);
    Sextets(a, b, c, d);
    SameChar(b, b - b % 16);
    SameChar(c, c - c % 4);
    var x, y, z := a * 4 + b / 16, b % 16 * 16 + c / 4, c % 4 * 64 + d;
    EncodeShort(x, y, z);
    if p == 0 {
      assert [x, y, z][..3] == [x, y, z];
    } else if p == 1 {
      assert [x, y, z][..2] == [x, y];
    } else {
      assert [x, y, z][..1] == [x];
    }
  }

  /** Encoding undoes decoding exactly on texts whose cut-off bits are zero. */
  lemma {:induction false} EncodeDecode(s: Bytes, p: nat)
    requires Base64Text(s, p)
    ensures Decode(s) == Quantums(s) && Quantums(s).Some?
    ensures Encode(Quantums(s).value) == s <==> CutBitsZero(s, p)
    decreases |s|
  {
    hide Quantum, Char, ValueOf, Base64Text, CutBitsZero;
    TextDecodes(s, p);
    if |s| == 4 {
      QuantumsLast(s);
      EncodeOfQuantum(s, p);
    } else {
      TextSplits(s, p);
      var q, t := s[..4], s[4..];
      EncodeOfQuantum(q, 0);
      EncodeDecode(t, p);
      EncodeAfterThree(Quantum(q).value, Quantums(t).value);
      hide Encode;
      assert Encode(Quantum(q).value) == q;
      assert s == q + t;
      assert Quantums(s).value == Quantum(q).value + Quantums(t).value;
      SameTail(q, Encode(Quantums(t).value), t);
    }
  }

  lemma SameTail(q: Bytes, u: Bytes, v: Bytes)
    ensures q + u == q + v <==> u == v
  {
    assert (q + u)[|q|..] == u && (q + v)[|q|..] == v;
  }

  lemma TextDecodes(s: Bytes, p: nat)
    requires Base64Text(s, p)
    ensures |s| >= 4 && |s| % 4 == 0 && Decode(s) == Quantums(s) && Quantums(s).Some?
  {
    hide Quantum, Quantums, FirstPad, Padding, ValueOf;
    PadPlace(s, p);
    QuantumsAccept(s, p);
  }

  lemma TextSplits(s: Bytes, p: nat)
    requires Base64Text(s, p) && |s| > 4
    ensures Base64Text(s[..4], 0) && Pads(s[..4]) == 0 && Base64Text(s[4..], p)
    ensures CutBitsZero(s, p) == CutBitsZero(s[4..], p) && CutBitsZero(s[..4], 0)
  {
    hide ValueOf;
    var q, t := s[..4], s[4..];
    assert forall i | 0 <= i < 4 :: q[i] == s[i];
    assert forall i | 0 <= i < |t| :: t[i] == s[i + 4];
    PadsOf(q);
    PadPlace(s, p);
  }

  lemma EncodeAfterThree(u: Bytes, v: Bytes)
    requires |u| == 3
    ensures Encode(u + v) == Encode(u) + Encode(v)
  {
    assert (u + v)[3..] == v && u[3..] == [];
  }

  // ---- the alphabet and the bits of a group, apart from the functions above ----

  const ALPHABET: string := "ABCDEFGHIJKLMNOPQRSTUVWXYZ" + "abcdefghijklmnopqrstuvwxyz" + "0123456789+/"

  function Letter(v: nat): (c: byte)
    requires v < 64
    ensures |ALPHABET| == 64 && c == ALPHABET[v] as int
  {
    ALPHABET[v] as int
  }

  lemma TableChar(v: nat)
    requires v < 64
    ensures Char(v) == Letter(v)
  {
  }

  /** A byte has a value iff it stands in the table, and the value is its place there. */
  lemma AlphabetTable(v: nat, c: byte)
    ensures |ALPHABET| == 64
    ensures ValueOf(c) == Some(v) <==> v < 64 && ALPHABET[v] as int == c
  {
    hide Char, ALPHABET;
    TableChar(0);
    if v < 64 {
      TableChar(v);
      ValueOfChar(v);
    }
  }

  /** The 24 bits of three bytes are those of four characters, written and read. */
  lemma GroupOfThree(x: byte, y: byte, z: byte, a: nat, b: nat, c: nat, d: nat, u: Bytes, s: Bytes)
    requires a < 64 && b < 64 && c < 64 && d < 64
    requires (x * 256 + y) * 256 + z == ((a * 64 + b) * 64 + c) * 64 + d
    requires s == [] || Decode(s).Some?
    ensures var g := [Letter(a), Letter(b), Letter(c), Letter(d)];
      && Encode([x, y, z] + u) == g + Encode(u)
      && Decode(g + s) == Some([x, y, z] + if s == [] then [] else Decode(s).value)
  {
    hide Char, Encode, Letter, Decode, Quantum, Quantums;
    Grouped(x, y, z, a, b, c, d);
    TableChar(a);
    TableChar(b);
    TableChar(c);
    TableChar(d);
    EncodeThree(x, y, z);
    EncodeAfterThree([x, y, z], u);
    var g := [Char(a), Char(b), Char(c), Char(d)];
    QuantumOfThree(x, y, z);
    GroupDecoded([x, y, z], g, s);
  }

  lemma GroupDecoded(v: Bytes, g: Bytes, s: Bytes)
    requires |v| == 3 && |g| == 4 && g == Encode(v) && Quantum(g) == Some(v) && (s == [] || Decode(s).Some?)
    ensures Decode(g + s) == Some(v + if s == [] then [] else Decode(s).value)
  {
    hide Encode, Decode, Quantum, Quantums, Char, ValueOf;
    EncodeShape(v);
    assert forall i | 0 <= i < 4 :: ValueOf(g[i]).Some?;
    if s == [] {
      assert g + [] == g && v + [] == v;
      EncodeDecode(g, 0);
      QuantumsLast(g);
    } else {
      DecodeAccepts(s);
      var p :| Base64Text(s, p);
      TextGrows(g, s, p);
      EncodeDecode(s, p);
      EncodeDecode(g + s, p);
      assert (g + s)[..4] == g && (g + s)[4..] == s;
      QuantumsStep(g + s);
    }
  }

  lemma LastGroup(g: Bytes, v: Bytes, p: nat)
    requires |g| == 4 && Base64Text(g, p) && Quantum(g) == Some(v)
    ensures Decode(g) == Some(v) && (Encode(v) == g <==> CutBitsZero(g, p))
  {
    hide *;
    EncodeDecode(g, p);
    QuantumsLast(g);
  }

  /** Two bytes are written with two zero bits; reading drops the two bits e whatever they are. */
  lemma GroupOfTwo(x: byte, y: byte, a: nat, b: nat, c: nat, e: nat)
    requires a < 64 && b < 64 && c < 64 && e < 4
    requires (x * 256 + y) * 4 + e == (a * 64 + b) * 64 + c
    ensures var g := [Letter(a), Letter(b), Letter(c), 61];
      Decode(g) == Some([x, y]) && (Encode([x, y]) == g <==> e == 0)
  {
    hide *;
    Grouped(x, y, 64 * e, a, b, c, 0);
    TableChar(a);
    TableChar(b);
    TableChar(c);
    TwoQuantum(a, b, c);
    var g: Bytes := [Char(a), Char(b), Char(c), 61];
    Sextets(a, b, c, 0);
    assert c % 4 == e && [x, y, 64 * e][..2] == [x, y];
    LastGroup(g, [x, y], 1);
  }

  lemma TwoQuantum(a: nat, b: nat, c: nat)
    requires a < 64 && b < 64 && c < 64
    ensures var g: Bytes := [Char(a), Char(b), Char(c), 61];
      && Base64Text(g, 1) && (CutBitsZero(g, 1) <==> c % 4 == 0)
      && Quantum(g) == Some([a * 4 + b / 16, b % 16 * 16 + c / 4, c % 4 * 64][..2])
  {
    hide Quantum, Char, ValueOf;
    ValueOfChar(a);
    ValueOfChar(b);
    ValueOfChar(c);
    var g: Bytes := [Char(a), Char(b), Char(c), 61];
    PadsOf(g);
    QuantumIs(g, a, b, c, 0);
  }

  /** One byte is written with four zero bits; reading drops the four bits e whatever they are. */
  lemma GroupOfOne(x: byte, a: nat, b: nat, e: nat)
    requires a < 64 && b < 64 && e < 16 && x * 16 + e == a * 64 + b
    ensures var g := [Letter(a), Letter(b), 61, 61];
      Decode(g) == Some([x]) && (Encode([x]) == g <==> e == 0)
  {
    hide *;
    Grouped(x, 16 * e, 0, a, b, 0, 0);
    TableChar(a);
    TableChar(b);
    OneQuantum(a, b);
    var g: Bytes := [Char(a), Char(b), 61, 61];
    Sextets(a, b, 0, 0);
    assert b % 16 == e && [x, 16 * e, 0][..1] == [x];
    LastGroup(g, [x], 2);
  }

  lemma OneQuantum(a: nat, b: nat)
    requires a < 64 && b < 64
    ensures var g: Bytes := [Char(a), Char(b), 61, 61];
      && Base64Text(g, 2) && (CutBitsZero(g, 2) <==> b % 16 == 0)
      && Quantum(g) == Some([a * 4 + b / 16, b % 16 * 16, 0][..1])
  {
    hide Quantum, Char, ValueOf;
    ValueOfChar(a);
    ValueOfChar(b);
    var g: Bytes := [Char(a), Char(b), 61, 61];
    PadsOf(g);
    QuantumIs(g, a, b, 0, 0);
  }

  lemma Grouped(x: byte, y: byte, z: byte, a: nat, b: nat, c: nat, d: nat)
    requires a < 64 && b < 64 && c < 64 && d < 64
    requires (x * 256 + y) * 256 + z == ((a * 64 + b) * 64 + c) * 64 + d
    ensures a == x / 4 && b == x % 4 * 16 + y / 16 && c == y % 16 * 4 + z / 64 && d == z % 64
  {
    var x1, x2, y1, y2, z1, z2 := x / 4, x % 4, y / 16, y % 16, z / 64, z % 64;
    assert (((x1 * 64 + x2 * 16 + y1) * 64) + y2 * 4 + z1) * 64 + z2 == ((a * 64 + b) * 64 + c) * 64 + d;
    Step64(((x1 * 64 + x2 * 16 + y1) * 64) + y2 * 4 + z1, z2, (a * 64 + b) * 64 + c, d);
    Step64(x1 * 64 + x2 * 16 + y1, y2 * 4 + z1, a * 64 + b, c);
    Step64(x1, x2 * 16 + y1, a, b);
  }

  lemma Step64(p: nat, q: nat, r: nat, s: nat)
    requires q < 64 && s < 64 && p * 64 + q == r * 64 + s
    ensures p == r && q == s
  {
  }

  // ---- the code ----

  method StrLen(src: Bytes) returns (n: nat)
    requires Terminated(src)
    ensures n < |src| && src[n] == NUL && NUL !in src[..n] && src[..n] == CString(src)
  {
    n := 0;
    while src[n] != NUL
      invariant n < |src| && NUL !in src[..n]
      decreases |src| - n
    {
      assert src[..n + 1] == src[..n] + [src[n]];
      n := n + 1;
    }
    CStringAt(src, n);
  }

  lemma {:induction false} CStringAt(s: Bytes, n: nat)
    requires n < |s| && s[n] == NUL && NUL !in s[..n]
    ensures CString(s) == s[..n]
  {
    if n > 0 {
      assert s[..n][0] == s[0];
      assert s[1..][..n - 1] == s[..n][1..];
      CStringAt(s[1..], n - 1);
      assert s[..n] == [s[0]] + s[1..][..n - 1];
    }
  }

  /** Searching the table for a character. */
  method TableSearch(c: byte) returns (v: nat)
    requires c != NUL
    ensures v <= 64 && ValueOf(c) == if v < 64 then Some(v) else None
  {
    v := 0;
    while v < 64 && Char(v) != c
      invariant v <= 64 && forall w | 0 <= w < v :: Char(w) != c
    {
      v := v + 1;
    }
    if v < 64 {
      ValueOfChar(v);
    }
  }

  /** The bits gathered from the first i characters. */
  function Gathered(s: Bytes, i: nat): nat
    requires i <= |s|
  {
    if i == 0 then 0
    else Gathered(s, i - 1) * 64 + (if Sextet(s[i - 1]) == None then 0 else Sextet(s[i - 1]).value)
  }

  lemma {:induction false} PadsSnoc(s: Bytes, c: byte)
    ensures Pads(s + [c]) == Pads(s) + (if c == PAD then 1 else 0)
  {
    if s == [] {
      assert s + [c] == [c] && [c][1..] == [];
    } else {
      assert (s + [c])[1..] == s[1..] + [c];
      PadsSnoc(s[1..], c);
    }
  }

  lemma QuantumOfGathered(s: Bytes)
    requires |s| == 4 && Pads(s) <= 2 && forall i | 0 <= i < 4 :: Sextet(s[i]).Some?
    ensures var x := Gathered(s, 4);
      Quantum(s) == Some([x / 65536 % 256, x / 256 % 256, x % 256][..3 - Pads(s)])
  {
    assert Gathered(s, 4) == Gathered(s, 3) * 64 + Sextet(s[3]).value;
    assert Gathered(s, 3) == Gathered(s, 2) * 64 + Sextet(s[2]).value;
    assert Gathered(s, 2) == Gathered(s, 1) * 64 + Sextet(s[1]).value;
    assert Gathered(s, 1) == Sextet(s[0]).value;
  }

  /** The loop of decodeQuantum over the four characters. */
  method GatherQuantum(q: Bytes) returns (ok: bool, x: nat, padding: nat)
    requires |q| == 4 && NUL !in q
    ensures ok ==> padding == Pads(q) && x == Gathered(q, 4) && forall j | 0 <= j < 4 :: Sextet(q[j]).Some?
    ensures !ok ==> Quantum(q) == None
  {
    hide ValueOf, Quantum, Pads;
    padding, x := 0, 0;
    var i := 0;
    assert q[..0] == [];
    PadsNone();
    while i < 4
      invariant i <= 4 && padding == Pads(q[..i]) && x == Gathered(q, i)
      invariant forall j | 0 <= j < i :: Sextet(q[j]).Some?
    {
      assert q[..i + 1] == q[..i] + [q[i]];
      PadsSnoc(q[..i], q[i]);
      if q[i] == PAD {
        x := x * 64;
        padding := padding + 1;
      } else {
        var v := TableSearch(q[i]);
        if v == 64 {
          ForeignQuantum(q, i);
          return false, x, padding;
        }
        x := x * 64 + v;
      }
      i := i + 1;
    }
    assert q[..4] == q;
    return true, x, padding;
  }

  lemma PadsNone()
    ensures Pads([]) == 0
  {
  }

  /** decodeQuantum: the number of bytes written, 0 for a foreign character. */
  method DecodeQuantum(dest: array<byte>, pos: nat, q: Bytes) returns (n: nat)
    requires |q| == 4 && NUL !in q && Pads(q) <= 2 && pos + 3 - Pads(q) <= dest.Length
    modifies dest
    ensures n == 0 <==> Quantum(q) == None
    ensures n > 0 ==> n == 3 - Pads(q) && dest[pos..pos + n] == Quantum(q).value
    ensures dest[..pos] == old(dest[..pos])
  {
    hide ValueOf, Quantum, Pads, Sextet, Gathered;
    ghost var was := dest[..pos];
    var ok, x, padding := GatherQuantum(q);
    if !ok {
      return 0;
    }
    QuantumOfGathered(q);
    if padding < 1 {
      dest[pos + 2] := x % 256;
    }
    if padding < 2 {
      dest[pos + 1] := x / 256 % 256;
    }
    dest[pos] := x / 65536 % 256;
    assert dest[..pos] == was;
    return 3 - padding;
  }

  lemma ForeignQuantum(q: Bytes, i: nat)
    requires |q| == 4 && i < 4 && Sextet(q[i]) == None
    ensures Quantum(q) == None
  {
  }

  method Base64Decode(src: Bytes) returns (ok: bool, out: array<byte>, outlen: nat)
    requires Terminated(src)
    ensures ok <==> Decode(CString(src)).Some?
    ensures ok ==> outlen + 1 == out.Length && out[..outlen] == Decode(CString(src)).value && out[outlen] == NUL
  {
    hide Quantums, FirstPad, Padding;
    ok, outlen := false, 0;
    out := new byte[0];
    var srclen := StrLen(src);
    ghost var s := CString(src);
    if srclen == 0 || srclen % 4 != 0 {
      return;
    }
    var length, padding := PaddingSearch(src, srclen);
    if length + padding != srclen {
      return;
    }
    PaddedEnd(s);
    var numQuantums := srclen / 4;
    var newstr := new byte[numQuantums * 3 - padding + 1];
    ok, outlen := DecodeLoop(newstr, src, srclen, padding);
    if ok {
      newstr[outlen] := NUL;
      out := newstr;
    }
  }

  lemma PaddedEnd(s: Bytes)
    requires s != [] && FirstPad(s) + Padding(s) == |s|
    ensures forall i | 0 <= i < |s| - Padding(s) :: s[i] != PAD
    ensures forall i | |s| - Padding(s) <= i < |s| :: s[i] == PAD
  {
  }

  method PaddingSearch(src: Bytes, srclen: nat) returns (length: nat, padding: nat)
    requires Terminated(src) && srclen < |src| && src[srclen] == NUL && NUL !in src[..srclen]
    requires src[..srclen] == CString(src)
    ensures length == FirstPad(CString(src)) && padding == Padding(CString(src))
  {
    length := PadSearch(src, srclen);
    hide CString, FirstPad;
    padding := 0;
    ghost var s := CString(src);
    assert forall i | 0 <= i < srclen :: s[i] == src[i];
    if src[length] == PAD {
      padding := padding + 1;
      if src[length + 1] == PAD {
        padding := padding + 1;
      }
    }
  }

  /** The scan for the first pad. */
  method PadSearch(src: Bytes, srclen: nat) returns (length: nat)
    requires Terminated(src) && srclen < |src| && src[srclen] == NUL && NUL !in src[..srclen]
    requires src[..srclen] == CString(src)
    ensures length == FirstPad(CString(src)) && length <= srclen
    ensures src[length] == PAD <==> length < srclen
  {
    hide CString, FirstPad;
    length := 0;
    ghost var s := CString(src);
    assert forall i | 0 <= i < srclen :: s[i] == src[i] && src[i] != NUL;
    while src[length] != PAD && src[length] != NUL
      invariant length <= srclen && forall i | 0 <= i < length :: s[i] != PAD
      decreases srclen - length
    {
      length := length + 1;
    }
  }

  method DecodeLoop(newstr: array<byte>, src: Bytes, srclen: nat, padding: nat) returns (ok: bool, pos: nat)
    requires srclen < |src| && srclen % 4 == 0 && srclen > 0 && NUL !in src[..srclen] && padding <= 2
    requires newstr.Length == srclen / 4 * 3 - padding + 1
    requires forall i | 0 <= i < srclen - padding :: src[i] != PAD
    requires forall i | srclen - padding <= i < srclen :: src[i] == PAD
    modifies newstr
    ensures ok <==> Quantums(src[..srclen]).Some?
    ensures ok ==> pos + 1 == newstr.Length && newstr[..pos] == Quantums(src[..srclen]).value
  {
    hide Quantum, Quantums;
    ghost var s := src[..srclen];
    pos := 0;
    var i := 0;
    StepStart(s);
    while i < srclen / 4
      invariant i <= srclen / 4 && pos == (if i < srclen / 4 then i * 3 else srclen / 4 * 3 - padding)
      invariant Quantums(s) ==
        if Quantums(s[4 * i..]).Some? then Some(newstr[..pos] + Quantums(s[4 * i..]).value) else None
    {
      ghost var done := newstr[..pos];
      var q := src[4 * i..4 * i + 4];
      assert q == s[4 * i..4 * i + 4];
      PadsAt(s, i, padding);
      StepQuantum(s, i, done);
      var result := DecodeQuantum(newstr, pos, q);
      if result == 0 {
        return false, pos;
      }
      assert newstr[..pos + result] == done + newstr[pos..pos + result];
      pos := pos + result;
      i := i + 1;
    }
    StepEnd(s, newstr[..pos]);
    return true, pos;
  }

  lemma PadsAt(s: Bytes, i: nat, p: nat)
    requires |s| % 4 == 0 && i < |s| / 4 && p <= 2
    requires forall k | 0 <= k < |s| - p :: s[k] != PAD
    requires forall k | |s| - p <= k < |s| :: s[k] == PAD
    ensures Pads(s[4 * i..4 * i + 4]) == if i + 1 == |s| / 4 then p else 0
  {
    PadsOf(s[4 * i..4 * i + 4]);
  }

  lemma StepStart(s: Bytes)
    requires |s| % 4 == 0
    ensures s[0..] == s && (Quantums(s).Some? ==> [] + Quantums(s).value == Quantums(s).value)
  {
  }

  lemma StepQuantum(s: Bytes, i: nat, done: Bytes)
    requires |s| % 4 == 0 && i < |s| / 4
    ensures var q, r := Quantum(s[4 * i..4 * i + 4]), Quantums(s[4 * (i + 1)..]);
      && (Quantums(s[4 * i..]).Some? <==> q.Some? && r.Some?)
      && (q.Some? && r.Some? ==> done + Quantums(s[4 * i..]).value == (done + q.value) + r.value)
  {
    hide Quantum, Quantums;
    var t := s[4 * i..];
    FirstFour(s, i);
    QuantumsStep(t);
    if Quantums(t).Some? {
      Carry2(done, Quantum(t[..4]).value, Quantums(t[4..]).value);
    }
  }

  lemma FirstFour(s: Bytes, i: nat)
    requires |s| % 4 == 0 && i < |s| / 4
    ensures var t := s[4 * i..];
      |t| >= 4 && |t| % 4 == 0 && t[..4] == s[4 * i..4 * i + 4] && t[4..] == s[4 * (i + 1)..]
  {
  }

  lemma QuantumsStep(t: Bytes)
    requires |t| >= 4 && |t| % 4 == 0
    ensures Quantums(t) ==
      if Quantum(t[..4]).Some? && Quantums(t[4..]).Some? then Some(Quantum(t[..4]).value + Quantums(t[4..]).value)
      else None
  {
    hide Quantum;
  }

  lemma StepEnd(s: Bytes, done: Bytes)
    requires |s| % 4 == 0
    ensures s[4 * (|s| / 4)..] == [] && Quantums([]) == Some([]) && done + [] == done
  {
  }

  /** One round of base64_encode: up to three bytes in, four characters out. */
  method EncodeRound(output: array<byte>, at: nat, input: Bytes, from: nat, left: nat) returns (parts: nat)
    requires at + 5 <= output.Length && left > 0 && from + left <= |input|
    modifies output
    ensures parts == if left < 3 then left else 3
    ensures output[..at + 4] == old(output[..at]) + Encode(input[from..from + parts])
  {
    hide Char, Encode;
    var ibuf := new byte[3](_ => 0);
    var i := 0;
    parts := 0;
    while i < 3
      invariant i <= 3 && parts == if i < left then i else left
      invariant forall j | 0 <= j < 3 :: ibuf[j] == if j < parts then input[from + j] else 0
      modifies ibuf
    {
      if parts < left {
        ibuf[i] := input[from + i];
        parts := parts + 1;
      } else {
        ibuf[i] := 0;
      }
      i := i + 1;
    }
    var x, y, z := ibuf[0], ibuf[1], ibuf[2];
    ghost var b := input[from..from + parts];
    PutFour(output, at, Char(x / 4), Char(x % 4 * 16 + y / 16),
            if parts == 1 then PAD else Char(y % 16 * 4 + z / 64), if parts < 3 then PAD else Char(z % 64));
    if parts == 1 {
      assert b == [x];
      EncodeOne(x);
    } else if parts == 2 {
      assert b == [x, y];
      EncodeTwo(x, y);
    } else {
      assert b == [x, y, z];
      EncodeThree(x, y, z);
    }
  }

  /** msnprintf of four characters and a terminator. */
  method PutFour(output: array<byte>, at: nat, c0: byte, c1: byte, c2: byte, c3: byte)
    requires at + 5 <= output.Length
    modifies output
    ensures output[..at + 4] == old(output[..at]) + [c0, c1, c2, c3]
  {
    ghost var was := output[..at];
    output[at], output[at + 1], output[at + 2], output[at + 3], output[at + 4] := c0, c1, c2, c3, NUL;
    assert output[..at + 4] == was + output[at..at + 4];
  }

  lemma EncodeOne(x: byte)
    ensures Encode([x]) == [Char(x / 4), Char(x % 4 * 16), PAD, PAD]
  {
  }

  lemma EncodeTwo(x: byte, y: byte)
    ensures Encode([x, y]) == [Char(x / 4), Char(x % 4 * 16 + y / 16), Char(y % 16 * 4), PAD]
  {
  }

  lemma EncodeThree(x: byte, y: byte, z: byte)
    ensures Encode([x, y, z]) == [Char(x / 4), Char(x % 4 * 16 + y / 16), Char(y % 16 * 4 + z / 64), Char(z % 64)]
  {
    assert [x, y, z][3..] == [];
  }

  function EncodedLength(n: nat): nat { (n + 2) / 3 * 4 }

  /** base64_encode: an input size of 0 means a C string. */
  method Base64Encode(input: Bytes, size: nat) returns (out: array<byte>, outlen: nat)
    requires size <= |input| && (size == 0 ==> Terminated(input))
    ensures var b := if size == 0 then CString(input) else input[..size];
      outlen < out.Length && out[..outlen] == Encode(b) && out[outlen] == NUL
  {
    hide Encode, Terminated;
    var insize := size;
    if insize == 0 {
      insize := StrLen(input);
    }
    out := new byte[insize * 4 / 3 + 4];
    outlen := EncodeLoop(out, input, insize);
  }

  method EncodeLoop(out: array<byte>, input: Bytes, size: nat) returns (at: nat)
    requires size <= |input| && out.Length == size * 4 / 3 + 4
    modifies out
    ensures at < out.Length && out[..at] == Encode(input[..size]) && out[at] == NUL
  {
    hide *;
    ghost var b := input[..size];
    var insize, from := size, 0;
    at := 0;
    LengthOfNone();
    EncodeNone(b);
    while insize > 0
      invariant 0 <= insize && from + insize == |b| && (from % 3 == 0 || insize == 0)
      invariant at == EncodedLength(from) && at < out.Length
      invariant out[..at] + Encode(b[from..]) == Encode(b)
    {
      ghost var done := out[..at];
      Room(from, |b|);
      var parts := EncodeRound(out, at, input, from, insize);
      EncodeStep(input, size, from, parts, done);
      from := from + parts;
      insize := insize - parts;
      at := at + 4;
    }
    out[at] := NUL;
    assert b[from..] == [];
    EncodeNone(b);
    assert out[..at] + [] == out[..at];
  }

  lemma LengthOfNone()
    ensures EncodedLength(0) == 0
  {
  }

  /** What malloc asked for is enough, terminator included. */
  lemma Room(from: nat, n: nat)
    requires from < n && from % 3 == 0
    ensures EncodedLength(from) + 5 <= n * 4 / 3 + 4
    ensures EncodedLength(from) + 4 == EncodedLength(from + if n - from < 3 then n - from else 3)
    ensures n - from >= 3 ==> (from + 3) % 3 == 0
  {
    var k := from / 3;
    assert from == k * 3;
  }

  lemma EncodeNone(b: Bytes)
    ensures Encode([]) == [] && b[0..] == b && [] + Encode(b) == Encode(b)
  {
  }

  lemma EncodeStep(input: Bytes, size: nat, from: nat, parts: nat, done: Bytes)
    requires from < size <= |input| && parts == if size - from < 3 then size - from else 3
    ensures var b := input[..size];
      done + Encode(b[from..]) == (done + Encode(input[from..from + parts])) + Encode(b[from + parts..])
  {
    var b := input[..size];
    var u, v := b[from..from + parts], b[from + parts..];
    assert u == input[from..from + parts];
    assert b[from..] == u + v;
    if parts == 3 {
      EncodeAfterThree(u, v);
    } else {
      assert v == [] && u + v == u && Encode(u) + [] == Encode(u);
    }
    hide Encode;
    Carry2(done, Encode(u), Encode(v));
  }
}
