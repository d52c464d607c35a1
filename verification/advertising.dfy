/** The advertising payload `_adv_payload` of
    src/controller/ble_vote_controller.py: a sequence of AD structures in
    the length/type/value layout of the Bluetooth Core Specification
    Supplement, Part A, section 1 — one length byte counting the type byte
    and the value, one type byte, then the value. */
module Advertising {
  import opened Common

  const AD_FLAGS: byte := 0x01
  const AD_UUID16_COMPLETE: byte := 0x03
  const AD_UUID128_COMPLETE: byte := 0x07
  const AD_COMPLETE_NAME: byte := 0x09
  /** LE General Discoverable, BR/EDR not supported. */
  const FLAGS_VALUE: bytes := [0x06]

  datatype AdRecord = AdRecord(adType: byte, value: bytes)

  /** A record whose length byte `len(value) + 1` is below 256, so that it
      reads back: MicroPython's `struct.pack("BB", ...)` does not range-check
      a `B` field but keeps its low eight bits, so a longer value still
      encodes, under a wrapped length byte. */
  predicate Fits(rec: AdRecord)
  {
    |rec.value| + 1 <= 255
  }

  /** One AD structure (`_append`). The length byte is `len(value) + 1`
      modulo 256, the truncation MicroPython's `struct.pack` applies. */
  function EncodeRecord(rec: AdRecord): (r: bytes)
    ensures |r| == 2 + |rec.value| && r[1] == rec.adType && r[2..] == rec.value
    ensures Fits(rec) ==> r[0] == |rec.value| + 1
    ensures r[0] < 256 && (r[0] - (|rec.value| + 1)) % 256 == 0
    ensures |rec.value| == 255 ==> r[0] == 0
  {
    [(|rec.value| + 1) % 256, rec.adType] + rec.value
  }

  /** AD structures back to back. */
  function EncodeRecords(rs: seq<AdRecord>): (r: bytes)
    ensures |r| == RecordsLength(rs)
    ensures rs != [] ==> r[..2 + |rs[0].value|] == EncodeRecord(rs[0])
    decreases |rs|
  {
    if rs == [] then []
    else EncodeRecord(rs[0]) + EncodeRecords(rs[1..])
  }

  /** Encoded size: two header bytes per structure plus the values. */
  function RecordsLength(rs: seq<AdRecord>): nat
    decreases |rs|
  {
    if rs == [] then 0 else 2 + |rs[0].value| + RecordsLength(rs[1..])
  }

  /** Splits an advertising payload back into its AD structures; `None` for
      a zero length byte or a structure running past the end. */
  function ParseRecords(p: bytes): (r: Option<seq<AdRecord>>)
    ensures r.Some? ==> forall i :: 0 <= i < |r.value| ==> Fits(r.value[i])
    decreases |p|
  {
    if p == [] then Some([])
    else
      var len: int := p[0];
      if len == 0 || |p| < 1 + len then None
      else
        var rec := AdRecord(p[1], p[2..1 + len]);
        match ParseRecords(p[1 + len..])
        case None => None
        case Some(rest) => Some([rec] + rest)
  }

  /** Parsing an encoded payload recovers the structures. */
  lemma {:induction false} ParseEncodeRoundTrip(rs: seq<AdRecord>)
    requires forall i :: 0 <= i < |rs| ==> Fits(rs[i])
    ensures ParseRecords(EncodeRecords(rs)) == Some(rs)
    decreases |rs|
  {
    if rs != [] {
      assert Fits(rs[0]);
      assert forall i :: 0 <= i < |rs[1..]| ==> Fits(rs[1..][i]) by {
        forall i | 0 <= i < |rs[1..]| ensures Fits(rs[1..][i]) { assert rs[1..][i] == rs[i + 1]; }
      }
      ParseEncodeRoundTrip(rs[1..]);
      assert EncodeRecords(rs) == EncodeRecord(rs[0]) + EncodeRecords(rs[1..]);
      ParseOneRecord(rs[0], EncodeRecords(rs[1..]));
      assert [rs[0]] + rs[1..] == rs;
    }
  }

  /** A record that fits is parsed off the front of whatever follows it. */
  lemma ParseOneRecord(rec: AdRecord, tail: bytes)
    requires Fits(rec)
    ensures ParseRecords(EncodeRecord(rec) + tail)
            == if ParseRecords(tail).Some? then Some([rec] + ParseRecords(tail).value) else None
  {
    var p := EncodeRecord(rec) + tail;
    assert p[0] == |rec.value| + 1;
    assert p[1 + p[0]..] == tail;
    assert p[2..1 + p[0]] == rec.value;
  }

  /** An encoded record list reads back exactly when every record fits: a
      record of 255 bytes or more has a wrapped length byte, and nothing
      the parser returns is that long. */
  lemma EncodeReadsBackIffFits(rs: seq<AdRecord>)
    ensures ParseRecords(EncodeRecords(rs)) == Some(rs) <==> forall i :: 0 <= i < |rs| ==> Fits(rs[i])
  {
    if forall i :: 0 <= i < |rs| ==> Fits(rs[i]) {
      ParseEncodeRoundTrip(rs);
    }
  }

  /** The service-UUID structure: 16-bit list type for a 2-byte UUID,
      128-bit list type otherwise. */
  function ServiceRecord(uuid: bytes): (r: AdRecord)
    ensures r.value == uuid
    ensures r.adType == AD_UUID16_COMPLETE <==> |uuid| == 2
    ensures r.adType == AD_UUID128_COMPLETE <==> |uuid| != 2
  {
    AdRecord(if |uuid| == 2 then AD_UUID16_COMPLETE else AD_UUID128_COMPLETE, uuid)
  }

  /** The structures `_adv_payload(name, services)` appends, in order. */
  function AdvRecords(name: bytes, services: seq<bytes>): (rs: seq<AdRecord>)
    ensures |rs| == 2 + |services|
    ensures rs[0] == AdRecord(AD_FLAGS, FLAGS_VALUE) && rs[1] == AdRecord(AD_COMPLETE_NAME, name)
    ensures forall i :: 0 <= i < |services| ==> rs[2 + i] == ServiceRecord(services[i])
  {
    [AdRecord(AD_FLAGS, FLAGS_VALUE), AdRecord(AD_COMPLETE_NAME, name)]
      + seq(|services|, i requires 0 <= i < |services| => ServiceRecord(services[i]))
  }

  /** `_adv_payload`. An absent service list behaves like an empty one.
      Every name and UUID gives a payload; one of 255 bytes or more gets a
      wrapped length byte, and the payload then no longer reads back as
      its records. */
  function AdvPayload(name: bytes, services: seq<bytes>): (r: bytes)
    ensures ParseRecords(r) == Some(AdvRecords(name, services))
            <==> |name| < 255 && forall i :: 0 <= i < |services| ==> |services[i]| < 255
    ensures |r| >= 3 && r[..3] == [2, AD_FLAGS, 0x06]
  {
    var rs := AdvRecords(name, services);
    var r := EncodeRecords(rs);
    EncodeReadsBackIffFits(rs);
    assert r[..3] == EncodeRecord(rs[0]);
    assert (forall i :: 0 <= i < |rs| ==> Fits(rs[i]))
           <==> |name| < 255 && forall i :: 0 <= i < |services| ==> |services[i]| < 255 by {
      if |name| < 255 && forall i :: 0 <= i < |services| ==> |services[i]| < 255 {
        forall i | 0 <= i < |rs| ensures Fits(rs[i]) {
          if i >= 2 { assert rs[i] == ServiceRecord(services[i - 2]); }
        }
      }
      if forall i :: 0 <= i < |rs| ==> Fits(rs[i]) {
        assert Fits(rs[1]);
        forall i | 0 <= i < |services| ensures |services[i]| < 255 {
          assert Fits(rs[2 + i]);
        }
      }
    }
    r
  }

  /** Sum of the UUID lengths. */
  function TotalLength(us: seq<bytes>): nat
    decreases |us|
  {
    if us == [] then 0 else |us[0]| + TotalLength(us[1..])
  }

  /** The payload is 3 bytes of flags, 2 + |name| for the name and
      2 + |uuid| per service. */
  lemma {:induction false} AdvPayloadLength(name: bytes, services: seq<bytes>)
    ensures |AdvPayload(name, services)| == 3 + (2 + |name|) + 2 * |services| + TotalLength(services)
  {
    var rs := AdvRecords(name, services);
    assert rs[2..] == seq(|services|, i requires 0 <= i < |services| => ServiceRecord(services[i]));
    ServiceLength(services);
    assert RecordsLength(rs) == 3 + RecordsLength(rs[1..]);
    assert rs[1..][1..] == rs[2..];
  }

  lemma {:induction false} ServiceLength(services: seq<bytes>)
    ensures RecordsLength(seq(|services|, i requires 0 <= i < |services| => ServiceRecord(services[i])))
            == 2 * |services| + TotalLength(services)
    decreases |services|
  {
    if services != [] {
      var s := seq(|services|, i requires 0 <= i < |services| => ServiceRecord(services[i]));
      ServiceLength(services[1..]);
      assert s[1..] == seq(|services[1..]|, i requires 0 <= i < |services[1..]| => ServiceRecord(services[1..][i]));
    }
  }
}
