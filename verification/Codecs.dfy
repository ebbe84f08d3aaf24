/**
 Signature components and DER elements as bytes: ECDSA normalization, the DSA form of
 XML Signature, and the tag-length-value reader.
 */
module Codecs {
  import opened Dom
  import opened Bytes

  // ---------------------------------------------------------------- ECDSA

  /** The position of the first byte that is not zero; the last one if all are. */
  function FirstNonZero(s: seq<u8>): (k: nat)
    ensures k <= |s|
  {
    if |s| <= 1 then 0 else if s[0] != 0 then 0 else 1 + FirstNonZero(s[1..])
  }

  /** The component without leading zeros, but never nothing. */
  function Trimmed(s: seq<u8>): seq<u8> {
    s[FirstNonZero(s)..]
  }

  lemma {:induction false} TrimmedValue(s: seq<u8>)
    ensures Value(Trimmed(s)) == Value(s)
    ensures |Trimmed(s)| <= |s| && (s != [] ==> Trimmed(s) != [])
    ensures |Trimmed(s)| > 1 ==> Trimmed(s)[0] != 0
  {
    if |s| > 1 && s[0] == 0 {
      TrimmedValue(s[1..]);
      assert Trimmed(s) == Trimmed(s[1..]);
      assert s == [s[0]] + s[1..];
      ValueCons(s[0], s[1..]);
    } else {
      assert Trimmed(s) == s;
    }
  }

  /** The component needs more than `field` bytes. */
  predicate TooLarge(s: seq<u8>, field: nat) {
    |Trimmed(s)| > field
  }

  /** For a real field size that is a matter of the value alone. */
  lemma TooLargeIsValue(s: seq<u8>, field: nat)
    requires field > 0
    ensures TooLarge(s, field) <==> Value(s) >= Pow256(field)
  {
    var t := Trimmed(s);
    TrimmedValue(s);
    ValueBound(t);
    if |t| <= field {
      PowGrows(|t|, field);
    } else {
      assert t == [t[0]] + t[1..];
      ValueCons(t[0], t[1..]);
      PowGrows(field, |t| - 1);
      MulLe(1, t[0] as nat, Pow256(|t| - 1));
    }
  }

  lemma {:induction false} PowGrows(m: nat, n: nat)
    requires m <= n
    ensures Pow256(m) <= Pow256(n)
  {
    if m < n {
      PowGrows(m, n - 1);
      PowStep(n - 1);
    }
  }

  lemma PaddedValue(zeros: seq<u8>, s: seq<u8>)
    requires forall i :: 0 <= i < |zeros| ==> zeros[i] == 0
    ensures Value(zeros + s) == Value(s)
  {
    ValueConcat(zeros, s);
    ValueZeros(zeros);
  }

  /** Copies a component to the right end of its half of the buffer. */
  method PlaceRight(out: array<u8>, end: nat, field: nat, bytes: seq<u8>)
    requires |bytes| <= field <= end <= out.Length
    requires forall i :: end - field <= i < end ==> out[i] == 0
    modifies out
    ensures Value(out[end - field..end]) == Value(bytes)
    ensures forall i :: 0 <= i < out.Length && !(end - field <= i < end) ==> out[i] == old(out[i])
  {
    var offset := end - |bytes|;
    forall k | 0 <= k < |bytes| {
      out[offset + k] := bytes[k];
    }
    ghost var zeros := out[end - field..offset];
    assert out[end - field..end] == zeros + bytes;
    PaddedValue(zeros, bytes);
  }

  /** Splits evenly, strips leading zeros, and pads each half to the field size. */
  method NormalizeRawEcdsa(sig: seq<u8>, field: nat) returns (result: Result<seq<u8>>)
    ensures result.Err? <==> |sig| % 2 != 0 || TooLarge(sig[..|sig| / 2], field) || TooLarge(sig[|sig| / 2..], field)
    ensures result.Ok? ==>
      && |result.value| == 2 * field
      && Value(result.value[..field]) == Value(sig[..|sig| / 2])
      && Value(result.value[field..]) == Value(sig[|sig| / 2..])
  {
    hide Value;
    if |sig| % 2 != 0 {
      return Err(Crypto);
    }
    var half := |sig| / 2;
    var out := new u8[2 * field](_ => 0);
    var r, s := Trimmed(sig[..half]), Trimmed(sig[half..]);
    TrimmedValue(sig[..half]);
    TrimmedValue(sig[half..]);
    if |r| > field {
      return Err(Crypto);
    }
    PlaceRight(out, field, field, r);
    if |s| > field {
      return Err(Crypto);
    }
    ghost var first := out[..field];
    PlaceRight(out, 2 * field, field, s);
    assert out[..field] == first;
    assert out[0..field] == first && out[field..2 * field] == out[field..];
    result := Ok(out[..]);
    assert out[..][..field] == first && out[..][field..] == out[field..];
  }

  /** On input of even length, normalization fails exactly if a half does not fit the field. */
  lemma NormalizationFails(sig: seq<u8>, field: nat)
    requires field > 0 && |sig| % 2 == 0
    ensures TooLarge(sig[..|sig| / 2], field) || TooLarge(sig[|sig| / 2..], field) <==>
      Value(sig[..|sig| / 2]) >= Pow256(field) || Value(sig[|sig| / 2..]) >= Pow256(field)
  {
    TooLargeIsValue(sig[..|sig| / 2], field);
    TooLargeIsValue(sig[|sig| / 2..], field);
  }

  // ---------------------------------------------------------------- DSA

  /** The shortest big-endian form of a number, one byte for zero. */
  function MinBytes(n: nat): (s: seq<u8>)
    ensures s != []
  {
    if n < 256 then [n as u8] else MinBytes(n / 256) + [(n % 256) as u8]
  }

  lemma {:induction false} MinBytesValue(n: nat)
    ensures Value(MinBytes(n)) == n
  {
    var s := MinBytes(n);
    if n < 256 {
      assert s[..0] == [];
    } else {
      MinBytesValue(n / 256);
      assert s[..|s| - 1] == MinBytes(n / 256);
    }
  }

  /** The last `n` bytes, or all of them. */
  function LastBytes(s: seq<u8>, n: nat): seq<u8> {
    if |s| > n then s[|s| - n..] else s
  }

  lemma LastBytesValue(s: seq<u8>, n: nat)
    ensures Value(LastBytes(s, n)) == Value(s) % Pow256(n)
  {
    var t := LastBytes(s, n);
    ValueBound(t);
    if |s| > n {
      var head := s[..|s| - n];
      assert s == head + t;
      ValueConcat(head, t);
      DivUnique(Value(head), Value(t), Pow256(n));
    } else {
      PowGrows(|s|, n);
      DivUnique(0, Value(t), Pow256(n));
    }
  }

  /** r and s, each in as many bytes as q has; what does not fit is cut off at the front. */
  function DsaForm(q: nat, r: nat, s: nat): seq<u8> {
    ToBytes(r % Pow256(q), q) + ToBytes(s % Pow256(q), q)
  }

  method DsaToXmldsig(q: nat, r: nat, s: nat) returns (out: seq<u8>)
    ensures out == DsaForm(q, r, s)
  {
    hide Value, Pow256, ToBytes;
    var rBytes, sBytes := MinBytes(r), MinBytes(s);
    MinBytesValue(r);
    MinBytesValue(s);
    LastBytesValue(rBytes, q);
    LastBytesValue(sBytes, q);
    var buffer := new u8[2 * q](_ => 0);
    PlaceRight(buffer, q, q, LastBytes(rBytes, q));
    ghost var first := buffer[..q];
    assert buffer[0..q] == first;
    PlaceRight(buffer, 2 * q, q, LastBytes(sBytes, q));
    ghost var second := buffer[q..2 * q];
    ValueToBytes(first);
    ValueToBytes(second);
    out := buffer[..];
    assert out == first + second;
  }

  /** Decoding; `make` is the constructor of signatures, which refuses some components. */
  function XmldsigToDsa<S>(q: nat, rs: seq<u8>, make: (nat, nat) -> Option<S>): Result<S> {
    if |rs| != 2 * q then Err(Crypto)
    else
      var sig := make(Value(rs[..q]), Value(rs[q..]));
      if sig.None? then Err(Crypto) else Ok(sig.value)
  }

  /** Decoding what was encoded makes a signature of the components modulo 256^q. */
  lemma DsaDecodes<S>(q: nat, r: nat, s: nat, make: (nat, nat) -> Option<S>)
    ensures var sig := make(r % Pow256(q), s % Pow256(q));
      XmldsigToDsa(q, DsaForm(q, r, s), make) == if sig.None? then Err(Crypto) else Ok(sig.value)
  {
    var p := Pow256(q);
    var a, b := ToBytes(r % p, q), ToBytes(s % p, q);
    ToBytesValue(r % p, q);
    ToBytesValue(s % p, q);
    assert (a + b)[..q] == a && (a + b)[q..] == b;
  }

  /** The components come back if and only if both are below 256^q and a signature can be made of them. */
  lemma DsaRoundTrip(q: nat, r: nat, s: nat, make: (nat, nat) -> Option<(nat, nat)>)
    requires forall a: nat, b: nat :: make(a, b).Some? ==> make(a, b).value == (a, b)
    ensures XmldsigToDsa(q, DsaForm(q, r, s), make) == Ok((r, s)) <==> r < Pow256(q) && s < Pow256(q) && make(r, s).Some?
  {
    var p := Pow256(q);
    DsaDecodes(q, r, s, make);
    hide DsaForm, XmldsigToDsa;
    if r < p {
      DivUnique(0, r, p);
    }
    if s < p {
      DivUnique(0, s, p);
    }
  }

  // ---------------------------------------------------------------- DER

  /** A length and what follows it. */
  function ParseLength(data: seq<u8>): Option<(nat, seq<u8>)> {
    if data == [] then None
    else if data[0] < 0x80 then Some((data[0] as nat, data[1..]))
    else if data[0] == 0x81 then
      if |data| < 2 then None else Some((data[1] as nat, data[2..]))
    else if data[0] == 0x82 then
      if |data| < 3 then None else Some((data[1] as nat * 0x100 + data[2] as nat, data[3..]))
    else if data[0] == 0x83 then
      if |data| < 4 then None
      else Some((data[1] as nat * 0x1_0000 + data[2] as nat * 0x100 + data[3] as nat, data[4..]))
    else None
  }

  /** An element without regard to its tag: its content and what follows. */
  function SkipElement(data: seq<u8>): Result<(seq<u8>, seq<u8>)> {
    if data == [] then Err(Crypto)
    else
      match ParseLength(data[1..])
      case None => Err(Crypto)
      case Some((len, content)) =>
        if |content| < len then Err(Crypto) else Ok((content[..len], content[len..]))
  }

  function ParseElement(data: seq<u8>, tag: u8): Result<(seq<u8>, seq<u8>)> {
    if data == [] || data[0] != tag then Err(Crypto) else SkipElement(data)
  }

  /** An INTEGER without its sign byte. */
  function ParseInteger(data: seq<u8>): Result<(seq<u8>, seq<u8>)> {
    match ParseElement(data, 0x02)
    case Err(e) => Err(e)
    case Ok((content, rest)) =>
      Ok((if |content| > 1 && content[0] == 0 then content[1..] else content, rest))
  }

  /** The shortest definite length of DER, up to three length bytes. */
  function EncodeLength(n: nat): seq<u8>
    requires n < 0x100_0000
  {
    if n < 0x80 then [n as u8]
    else if n < 0x100 then [0x81, n as u8]
    else if n < 0x1_0000 then [0x82, (n / 0x100) as u8, (n % 0x100) as u8]
    else [0x83, (n / 0x1_0000) as u8, (n / 0x100 % 0x100) as u8, (n % 0x100) as u8]
  }

  function EncodeElement(tag: u8, content: seq<u8>): seq<u8>
    requires |content| < 0x100_0000
  {
    [tag] + EncodeLength(|content|) + content
  }

  lemma LengthReadBack(n: nat, rest: seq<u8>)
    requires n < 0x100_0000
    ensures ParseLength(EncodeLength(n) + rest) == Some((n, rest))
  {
    var e := EncodeLength(n);
    assert (e + rest)[|e|..] == rest;
  }

  /** The reader undoes the encoder: exactly the content, and the rest untouched. */
  lemma ElementReadBack(tag: u8, content: seq<u8>, rest: seq<u8>)
    requires |content| < 0x100_0000
    ensures ParseElement(EncodeElement(tag, content) + rest, tag) == Ok((content, rest))
  {
    var data := EncodeElement(tag, content) + rest;
    assert data[1..] == EncodeLength(|content|) + (content + rest);
    LengthReadBack(|content|, content + rest);
    assert (content + rest)[..|content|] == content && (content + rest)[|content|..] == rest;
    hide EncodeLength, ParseLength;
  }

  /** Whatever is read comes from the data: a short header, the content, and the rest. */
  lemma ElementIsSlice(data: seq<u8>)
    ensures var r := SkipElement(data);
      r.Ok? ==> exists k :: 2 <= k <= 5 && k <= |data| && data[k..] == r.value.0 + r.value.1
  {
    var r := SkipElement(data);
    if r.Ok? {
      var p := ParseLength(data[1..]).value;
      var k := |data| - |p.1|;
      assert data[k..] == p.1;
      assert p.1 == p.1[..p.0] + p.1[p.0..];
      assert 2 <= k <= 5;
    }
  }

  /** Dropping the sign byte keeps the value. */
  lemma IntegerValue(data: seq<u8>)
    ensures var r, e := ParseInteger(data), ParseElement(data, 0x02);
      r.Ok? == e.Ok? && (r.Ok? ==> Value(r.value.0) == Value(e.value.0) && r.value.1 == e.value.1)
  {
    var e := ParseElement(data, 0x02);
    if e.Ok? {
      var c := e.value.0;
      if |c| > 1 && c[0] == 0 {
        assert c == [c[0]] + c[1..];
        ValueCons(c[0], c[1..]);
      }
    }
  }
}
