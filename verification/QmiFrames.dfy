/** QMI messages as bytes: the little-endian fields, the TLV area, the request buffer and
  * the search for one TLV. */
module QmiFrames {
  import opened Basics
  import opened Options

  const QMI_BUFFER := 4096
  const CTL: byte := 0x00
  const UIM: byte := 0x0B

  /** A little-endian 16-bit field. */
  function U16(v: nat): (b: seq<byte>)
    ensures |b| == 2
  {
    [v % 256, v / 256 % 256]
  }

  function GetU16(b: seq<byte>, at: nat): (v: nat)
    requires at + 2 <= |b|
    ensures v < 65536
  {
    (b[at] as int) + 256 * (b[at + 1] as int)
  }

  lemma U16RoundTrip(v: nat, before: seq<byte>, after: seq<byte>)
    requires v < 65536
    ensures GetU16(before + U16(v) + after, |before|) == v
  {}

  // ---- the TLV area ----

  datatype Tlv = Tlv(kind: byte, value: seq<byte>)

  function EncodeTlv(t: Tlv): (b: seq<byte>)
    ensures |b| == 3 + |t.value|
  {
    [t.kind] + U16(|t.value|) + t.value
  }

  function EncodeTlvs(ts: seq<Tlv>): seq<byte> {
    if |ts| == 0 then [] else EncodeTlv(ts[0]) + EncodeTlvs(ts[1..])
  }

  /** The whole area as TLVs; None when it does not divide into TLVs. */
  function ParseTlvs(b: seq<byte>): Option<seq<Tlv>> {
    if |b| == 0 then Some([])
    else if |b| < 3 then None
    else
      var end := 3 + GetU16(b, 1);
      if end > |b| then None
      else
        match ParseTlvs(b[end..])
        case None => None
        case Some(ts) => Some([Tlv(b[0], b[3..end])] + ts)
  }

  predicate Sized(ts: seq<Tlv>) { forall i :: 0 <= i < |ts| ==> |ts[i].value| < 65536 }

  lemma {:induction false} TlvRoundTrip(ts: seq<Tlv>)
    requires Sized(ts)
    ensures ParseTlvs(EncodeTlvs(ts)) == Some(ts)
  {
    if |ts| > 0 {
      var t, rest := ts[0], EncodeTlvs(ts[1..]);
      TlvRoundTrip(ts[1..]);
      FirstTlv(t, rest);
      assert ts == [t] + ts[1..];
    }
  }

  lemma FirstTlv(t: Tlv, rest: seq<byte>)
    requires |t.value| < 65536
    ensures var b := EncodeTlv(t) + rest;
      |b| >= 3 && b[0] == t.kind && GetU16(b, 1) == |t.value|
      && 3 + |t.value| <= |b| && b[3..3 + |t.value|] == t.value && b[3 + |t.value|..] == rest
  {
    var b := EncodeTlv(t) + rest;
    assert b == [t.kind] + U16(|t.value|) + (t.value + rest);
    U16RoundTrip(|t.value|, [t.kind], t.value + rest);
    assert b[3..] == t.value + rest;
  }

  /** Parsing is the inverse of encoding in the other direction too: an area that parses is
    * the encoding of what it parses to. */
  lemma {:induction false} ParseIsEncoding(b: seq<byte>)
    requires ParseTlvs(b).Some?
    ensures Sized(ParseTlvs(b).value) && EncodeTlvs(ParseTlvs(b).value) == b
    decreases |b|
  {
    if |b| > 0 {
      hide EncodeTlv, GetU16;
      var end := 3 + GetU16(b, 1);
      ParseIsEncoding(b[end..]);
      FirstIsEncoding(b);
      EncodedFirst(Tlv(b[0], b[3..end]), ParseTlvs(b[end..]).value);
      assert b == b[..end] + b[end..];
    }
  }

  lemma EncodedFirst(t: Tlv, ts: seq<Tlv>)
    ensures EncodeTlvs([t] + ts) == EncodeTlv(t) + EncodeTlvs(ts)
    ensures Sized([t] + ts) <==> |t.value| < 65536 && Sized(ts)
  {
    hide EncodeTlv;
    assert ([t] + ts)[1..] == ts;
    assert forall i :: 0 <= i < |ts| ==> ts[i] == ([t] + ts)[i + 1];
  }

  lemma FirstIsEncoding(b: seq<byte>)
    requires |b| >= 3 && 3 + GetU16(b, 1) <= |b|
    ensures var end := 3 + GetU16(b, 1);
      EncodeTlv(Tlv(b[0], b[3..end])) == b[..end]
  {
    var end := 3 + GetU16(b, 1);
    assert U16(|b[3..end]|) == b[1..3];
  }

  lemma {:induction false} EncodeAppend(ts: seq<Tlv>, t: Tlv)
    ensures EncodeTlvs(ts + [t]) == EncodeTlvs(ts) + EncodeTlv(t)
  {
    hide EncodeTlv;
    if |ts| == 0 {
      assert ts + [t] == [t];
      assert [t][1..] == [];
      assert EncodeTlvs([]) == [];
      assert EncodeTlv(t) + [] == EncodeTlv(t) == [] + EncodeTlv(t);
    } else {
      EncodeAppend(ts[1..], t);
      assert (ts + [t])[1..] == ts[1..] + [t];
      assert (ts + [t])[0] == ts[0];
      Concat(EncodeTlv(ts[0]), EncodeTlvs(ts[1..]), EncodeTlv(t));
    }
  }

  // ---- find_tlv ----

  /** The values of the TLVs of one type. */
  function Matching(ts: seq<Tlv>, kind: byte): seq<seq<byte>> {
    if |ts| == 0 then []
    else (if ts[0].kind == kind then [ts[0].value] else []) + Matching(ts[1..], kind)
  }

  /** The value of the only TLV of a type in an area that is all TLVs. */
  function Singleton(b: seq<byte>, kind: byte): Option<seq<byte>> {
    match ParseTlvs(b)
    case None => None
    case Some(ts) => Only(Matching(ts, kind))
  }

  function Only<T>(s: seq<T>): Option<T> { if |s| == 1 then Some(s[0]) else None }

  /** The values found so far followed by those in the rest of the area. */
  function Following(found: seq<seq<byte>>, b: seq<byte>, kind: byte): Option<seq<seq<byte>>> {
    match ParseTlvs(b)
    case None => None
    case Some(ts) => Some(found + Matching(ts, kind))
  }

  lemma FollowingStep(found: seq<seq<byte>>, b: seq<byte>, kind: byte)
    requires |b| >= 3
    ensures var end := 3 + GetU16(b, 1);
      if end > |b| then Following(found, b, kind) == None
      else Following(found, b, kind) ==
             Following(found + (if b[0] == kind then [b[3..end]] else []), b[end..], kind)
  {
    hide GetU16;
    var end := 3 + GetU16(b, 1);
    if end <= |b| && ParseTlvs(b[end..]).Some? {
      var ts := ParseTlvs(b[end..]).value;
      var here := if b[0] == kind then [b[3..end]] else [];
      assert ([Tlv(b[0], b[3..end])] + ts)[1..] == ts;
      assert Matching([Tlv(b[0], b[3..end])] + ts, kind) == here + Matching(ts, kind);
      Concat(found, here, Matching(ts, kind));
    }
  }

  lemma FollowingEnds(found: seq<seq<byte>>, b: seq<byte>, kind: byte)
    ensures |found| >= 2 ==> forall s :: Following(found, b, kind) == Some(s) ==> Only(s) == None
    ensures |b| < 3 ==> Following(found, b, kind) == if |b| == 0 then Some(found) else None
    ensures Singleton(b, kind) == match Following([], b, kind) case None => None case Some(s) => Only(s)
  {
    assert found + [] == found;
    if ParseTlvs(b).Some? {
      var ts := ParseTlvs(b).value;
      assert [] + Matching(ts, kind) == Matching(ts, kind);
    }
  }

  /** The length and the value of the only TLV of a type, or nothing. */
  method FindTlv(tlvs: seq<byte>, kind: byte) returns (r: Option<seq<byte>>)
    ensures r == Singleton(tlvs, kind)
  {
    hide ParseTlvs, GetU16, Following, Singleton;
    var offset := 0;
    var found: Option<seq<byte>> := None;
    ghost var values: seq<seq<byte>> := [];
    assert tlvs[0..] == tlvs;
    FollowingEnds([], tlvs, kind);
    while offset + 3 <= |tlvs|
      invariant offset <= |tlvs|
      invariant values == if found == None then [] else [found.value]
      invariant Following([], tlvs, kind) == Following(values, tlvs[offset..], kind)
    {
      var size := GetU16(tlvs, offset + 1);
      ghost var rest := tlvs[offset..];
      SameU16(tlvs, offset);
      FollowingStep(values, rest, kind);
      if offset + 3 + size > |tlvs| { return None; }
      assert rest[3 + size..] == tlvs[offset + 3 + size..];
      assert rest[3..3 + size] == tlvs[offset + 3..offset + 3 + size];
      if tlvs[offset] == kind {
        values := values + [tlvs[offset + 3..offset + 3 + size]];
        if found != None {
          FollowingEnds(values, tlvs[offset + 3 + size..], kind);
          return None;
        }
        found := Some(tlvs[offset + 3..offset + 3 + size]);
      } else {
        assert values + [] == values;
      }
      offset := offset + 3 + size;
    }
    FollowingEnds(values, tlvs[offset..], kind);
    if offset != |tlvs| || found == None { return None; }
    return found;
  }

  lemma SameU16(b: seq<byte>, offset: nat)
    requires offset + 3 <= |b|
    ensures GetU16(b[offset..], 1) == GetU16(b, offset + 1)
  {}

  /** On an area built from TLVs the search gives back the value of the one TLV of that type. */
  lemma SingletonOfEncoding(ts: seq<Tlv>, kind: byte)
    requires Sized(ts)
    ensures Singleton(EncodeTlvs(ts), kind) == Only(Matching(ts, kind))
  {
    TlvRoundTrip(ts);
  }

  // ---- requests ----

  function HeaderLength(service: byte): nat { if service == CTL then 12 else 13 }

  /** The transaction field: one byte for the control service, two for every other. */
  function TransactionField(service: byte, transaction: nat): seq<byte> {
    if service == CTL then [transaction % 256] else U16(transaction)
  }

  /** The header with its two length fields: everything after the marker, and the TLVs. */
  function Header(service: byte, client: byte, transaction: nat, message: nat, total: nat,
    tlvLength: nat): (h: seq<byte>)
    ensures |h| == HeaderLength(service)
  {
    [0x01] + U16(total) + [0x00, service, client, 0x00] + TransactionField(service, transaction)
    + U16(message) + U16(tlvLength)
  }

  /** A finished request: the length fields say what follows them. */
  function Request(service: byte, client: byte, transaction: nat, message: nat, ts: seq<Tlv>): seq<byte> {
    var area := EncodeTlvs(ts);
    Header(service, client, transaction, message, HeaderLength(service) - 1 + |area|, |area|) + area
  }

  /** A header, byte by byte. */
  lemma HeaderBytes(all: seq<byte>, h: nat, service: byte, client: byte, transaction: nat, message: nat, total: nat,
    tlvLength: nat)
    requires h == HeaderLength(service) <= |all|
    requires all[0] == 0x01 && [all[1], all[2]] == U16(total)
    requires all[3] == 0x00 && all[4] == service && all[5] == client && all[6] == 0x00
    requires if service == CTL then all[7] == transaction % 256 else [all[7], all[8]] == U16(transaction)
    requires [all[h - 4], all[h - 3]] == U16(message) && [all[h - 2], all[h - 1]] == U16(tlvLength)
    ensures all[..h] == Header(service, client, transaction, message, total, tlvLength)
  {
    hide U16;
    assert all[7..h - 4] == TransactionField(service, transaction);
    var middle := [all[3], all[4], all[5], all[6]] + all[7..h - 4];
    assert all[..h] == [all[0]] + [all[1], all[2]] + middle + [all[h - 4], all[h - 3]] + [all[h - 2], all[h - 1]];
  }

  class QmiRequest {
    const buffer: array<byte>
    var length: nat
    var tlvStart: nat

    ghost predicate Valid()
      reads this, buffer
    {
      buffer.Length == QMI_BUFFER && tlvStart <= length <= QMI_BUFFER
    }

    ghost function Contents(): seq<byte>
      requires Valid()
      reads this, buffer
    {
      buffer[..length]
    }

    constructor (service: byte, client: byte, transaction: nat, message: nat)
      requires transaction < 65536 && message < 65536
      ensures Valid() && fresh(buffer) && tlvStart == length == HeaderLength(service)
      ensures Contents() == Header(service, client, transaction, message, 0, 0)
    {
      hide Header;
      buffer := new byte[QMI_BUFFER](_ => 0);
      length := if service == CTL then 12 else 13;
      tlvStart := if service == CTL then 12 else 13;
      new;
      WriteHeader(service, client, transaction, message);
    }

    /** The header of a message without TLVs, whose length is not yet known. */
    method WriteHeader(service: byte, client: byte, transaction: nat, message: nat)
      requires Valid() && length == HeaderLength(service) && buffer[1] == buffer[2] == 0
      requires transaction < 65536 && message < 65536
      modifies buffer
      ensures Valid() && Contents() == Header(service, client, transaction, message, 0, 0)
    {
      hide Header, TransactionField;
      PutU16(length - 4, message);
      PutU16(length - 2, 0);
      if service == CTL {
        buffer[7] := transaction % 256;
      } else {
        PutU16(7, transaction);
      }
      buffer[0], buffer[3], buffer[4], buffer[5], buffer[6] := 0x01, 0x00, service, client, 0x00;
      assert [buffer[1], buffer[2]] == U16(0);
      HeaderBytes(buffer[..], length, service, client, transaction, message, 0, 0);
    }

    method PutU16(at: nat, value: nat)
      requires Valid() && at + 2 <= QMI_BUFFER && value < 65536
      modifies buffer
      ensures Valid() && [buffer[at], buffer[at + 1]] == U16(value)
      ensures forall i :: 0 <= i < buffer.Length && i != at && i != at + 1 ==> buffer[i] == old(buffer[i])
    {
      buffer[at] := value % 256;
      buffer[at + 1] := value / 256 % 256;
    }

    /** Copies bytes to a place in the buffer. */
    method PutBytes(at: nat, bytes: seq<byte>)
      requires Valid() && at + |bytes| <= QMI_BUFFER
      modifies buffer
      ensures Valid() && buffer[..at + |bytes|] == old(buffer[..at]) + bytes
    {
      forall i | 0 <= i < |bytes| { buffer[at + i] := bytes[i]; }
    }

    /** False when the TLV does not fit, and then nothing changes. */
    method AddTlv(kind: byte, value: seq<byte>) returns (ok: bool)
      requires Valid() && |value| < 65536
      modifies this`length, buffer
      ensures Valid()
      ensures ok <==> old(length) + 3 + |value| <= QMI_BUFFER
      ensures Contents() == if ok then old(Contents()) + EncodeTlv(Tlv(kind, value)) else old(Contents())
    {
      if length + 3 + |value| > QMI_BUFFER { return false; }
      hide U16;
      ghost var before := Contents();
      PutBytes(length, [kind]);
      PutBytes(length + 1, U16(|value|));
      PutBytes(length + 3, value);
      length := length + 3 + |value|;
      Concat(before, [kind], U16(|value|));
      Concat(before, [kind] + U16(|value|), value);
      return true;
    }

    /** Fills in the two length fields. */
    method Finish(service: byte)
      requires Valid() && tlvStart == HeaderLength(service)
      modifies buffer
      ensures Valid() && Contents() == WithLengths(service, old(Contents()))
    {
      hide U16;
      ghost var h, before := HeaderLength(service), buffer[..];
      var tlvLength := length - tlvStart;
      if service == CTL {
        PutU16(10, tlvLength);
      } else {
        PutU16(11, tlvLength);
      }
      PutU16(1, length - 1);
      assert buffer[1..3] == U16(length - 1) && buffer[h - 2..h] == U16(tlvLength);
      assert buffer[..1] == before[..1] == before[..length][..1];
      assert buffer[3..h - 2] == before[3..h - 2] == before[..length][3..h - 2];
      assert buffer[h..length] == before[h..length] == before[..length][h..];
      assert buffer[..length] == buffer[..1] + buffer[1..3] + buffer[3..h - 2] + buffer[h - 2..h] + buffer[h..length];
    }
  }

  /** A message with its two length fields replaced. */
  function WithLengths(service: byte, b: seq<byte>): (r: seq<byte>)
    requires |b| >= HeaderLength(service)
    ensures |r| == |b|
  {
    var h := HeaderLength(service);
    b[..1] + U16(|b| - 1) + b[3..h - 2] + U16(|b| - h) + b[h..]
  }

  /** Finishing a message that was begun and given these TLVs makes the request. */
  lemma FinishedIsRequest(service: byte, client: byte, transaction: nat, message: nat, ts: seq<Tlv>)
    ensures WithLengths(service, Header(service, client, transaction, message, 0, 0) + EncodeTlvs(ts))
         == Request(service, client, transaction, message, ts)
  {
    hide EncodeTlvs, U16;
    var area := EncodeTlvs(ts);
    var h := Header(service, client, transaction, message, 0, 0);
    assert (h + area)[..1] == [0x01];
    assert (h + area)[3..|h| - 2] ==
      [0x00, service, client, 0x00] + TransactionField(service, transaction) + U16(message);
    assert (h + area)[|h|..] == area;
  }
}
