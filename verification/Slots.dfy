/** The packed slot region of a pqdm2 envelope: key_id_len(1) || key_id || encap(1120) || wrappedK(48). */
module Slots {
  import opened Basics
  import opened PqKem
  import Utf8

  const WRAPPED_KEY_LEN: nat := 32 + 16

  datatype Slot = Slot(kid: bytes, encap: bytes, wrapped: bytes)
  {
    ghost predicate Valid() {
      |kid| < 0x100 && |encap| == CIPHERTEXT_LEN && |wrapped| == WRAPPED_KEY_LEN
    }
  }

  ghost predicate AllValid(ss: seq<Slot>) {
    forall i :: 0 <= i < |ss| ==> ss[i].Valid()
  }

  function PackSlot(s: Slot): bytes
    requires s.Valid()
  {
    [|s.kid|] + s.kid + s.encap + s.wrapped
  }

  function Pack(ss: seq<Slot>): bytes
    requires AllValid(ss)
  {
    if ss == [] then [] else PackSlot(ss[0]) + Pack(ss[1..])
  }

  /** The number of bytes the first record of b announces. */
  function RecordLen(b: bytes): nat
    requires b != []
  {
    1 + b[0] + CIPHERTEXT_LEN + WRAPPED_KEY_LEN
  }

  /** The first record of b. */
  function RecordOf(b: bytes): (s: Slot)
    requires b != [] && RecordLen(b) <= |b|
    ensures s.Valid()
  {
    var kidLen: int := b[0];
    var endKid := 1 + kidLen;
    var endEncap := endKid + CIPHERTEXT_LEN;
    Slot(b[1..endKid], b[endKid..endEncap], b[endEncap..endEncap + WRAPPED_KEY_LEN])
  }

  /** What iterating over a region yields, and whether it ends by raising. */
  datatype Parse = Parse(records: seq<Slot>, truncated: bool)

  function ParseSlots(b: bytes): (r: Parse)
    ensures AllValid(r.records)
  {
    if b == [] then Parse([], false)
    else if RecordLen(b) > |b| then Parse([], true)
    else
      var rest := ParseSlots(b[RecordLen(b)..]);
      Parse([RecordOf(b)] + rest.records, rest.truncated)
  }

  lemma ParseCons(b: bytes)
    requires b != [] && RecordLen(b) <= |b|
    ensures var rest := ParseSlots(b[RecordLen(b)..]);
      ParseSlots(b) == Parse([RecordOf(b)] + rest.records, rest.truncated)
  {
    hide RecordOf;
  }

  /** One turn of the iterator at offset `off`, in terms of offsets into the whole region. */
  lemma ParseAt(slots: bytes, off: nat)
    requires off < |slots|
    ensures var endKid := off + 1 + slots[off];
      var endEncap := endKid + CIPHERTEXT_LEN;
      var endWrap := endEncap + WRAPPED_KEY_LEN;
      if endWrap > |slots| then ParseSlots(slots[off..]) == Parse([], true)
      else
        var record := Slot(slots[off + 1..endKid], slots[endKid..endEncap], slots[endEncap..endWrap]);
        var rest := ParseSlots(slots[endWrap..]);
        ParseSlots(slots[off..]) == Parse([record] + rest.records, rest.truncated)
  {
    var region := slots[off..];
    if RecordLen(region) <= |region| {
      assert region[RecordLen(region)..] == slots[off + RecordLen(region)..];
      var endKid := off + 1 + slots[off];
      var endEncap := endKid + CIPHERTEXT_LEN;
      assert RecordOf(region)
          == Slot(slots[off + 1..endKid], slots[endKid..endEncap], slots[endEncap..endEncap + WRAPPED_KEY_LEN]);
    }
  }

  /** `_pqdm2_iter_slots`, run to its end. */
  method IterSlots(slots: bytes) returns (records: seq<Slot>, truncated: bool)
    ensures Parse(records, truncated) == ParseSlots(slots)
  {
    hide RecordOf, RecordLen, ParseSlots;
    records, truncated := [], false;
    assert slots[0..] == slots;
    var off, n := 0, |slots|;
    while off < n
      invariant 0 <= off <= n
      invariant ParseSlots(slots)
             == Parse(records + ParseSlots(slots[off..]).records, ParseSlots(slots[off..]).truncated)
      decreases n - off
    {
      ParseAt(slots, off);
      var kidLen := slots[off];
      var start := off + 1;
      var endKid := start + kidLen;
      var endEncap := endKid + CIPHERTEXT_LEN;
      var endWrap := endEncap + WRAPPED_KEY_LEN;
      if endWrap > n {
        truncated := true;
        return;
      }
      var record := Slot(slots[start..endKid], slots[endKid..endEncap], slots[endEncap..endWrap]);
      ghost var rest := ParseSlots(slots[endWrap..]).records;
      assert records + ([record] + rest) == (records + [record]) + rest;
      records := records + [record];
      off := endWrap;
    }
    assert slots[off..] == [];
    ParseNothing();
  }

  lemma ParseNothing()
    ensures ParseSlots([]) == Parse([], false)
  {
  }

  /** A record, part by part: one byte for the length of the key id, the key id, 1120 bytes of KEM
      ciphertext, 48 bytes of wrapped key. */
  lemma RecordLayout(s: Slot)
    requires s.Valid()
    ensures var b, n := PackSlot(s), 1 + |s.kid|;
      && |b| == n + 1120 + 48 && b[0] as int == |s.kid| && b[1..n] == s.kid
      && b[n..n + 1120] == s.encap && b[n + 1120..] == s.wrapped
  {
  }

  // ---- the codec is a bijection between lists of valid slots and untruncated regions ----

  lemma RecordOfPacked(s: Slot, tail: bytes)
    requires s.Valid()
    ensures var b := PackSlot(s) + tail;
      RecordLen(b) == |PackSlot(s)| && RecordOf(b) == s && b[RecordLen(b)..] == tail
  {
    var b := PackSlot(s) + tail;
    assert b[0] == |s.kid|;
    assert b[1..1 + |s.kid|] == s.kid;
  }

  lemma PackedRecord(b: bytes)
    requires b != [] && RecordLen(b) <= |b|
    ensures PackSlot(RecordOf(b)) == b[..RecordLen(b)]
  {
  }

  /** Parsing a packed list yields the list, then whatever the bytes behind it yield. */
  lemma {:induction false} ParsePacked(ss: seq<Slot>, tail: bytes)
    requires AllValid(ss)
    ensures ParseSlots(Pack(ss) + tail) == Parse(ss + ParseSlots(tail).records, ParseSlots(tail).truncated)
  {
    if ss == [] {
      assert Pack(ss) + tail == tail;
      assert ss + ParseSlots(tail).records == ParseSlots(tail).records;
    } else {
      hide PackSlot, RecordOf, RecordLen, ParseSlots, Pack;
      var more := Pack(ss[1..]) + tail;
      PackCons(ss);
      assert Pack(ss) + tail == PackSlot(ss[0]) + more;
      RecordOfPacked(ss[0], more);
      PackedNotEmpty(ss[0], more);
      ParseCons(PackSlot(ss[0]) + more);
      ParsePacked(ss[1..], tail);
      FrontAndRest(ss, ParseSlots(tail).records);
    }
  }

  lemma FrontAndRest(ss: seq<Slot>, tt: seq<Slot>)
    requires ss != []
    ensures ss + tt == [ss[0]] + (ss[1..] + tt)
  {
  }

  lemma PackedNotEmpty(s: Slot, tail: bytes)
    requires s.Valid()
    ensures PackSlot(s) + tail != [] && |PackSlot(s)| >= 1169
  {
  }

  /** Any region is its records packed, followed by a remainder; the iterator raises exactly when the
      remainder is not empty, and the remainder is shorter than the record it announces. */
  lemma {:induction false} PackParsed(b: bytes)
    ensures var r := ParseSlots(b);
      && Pack(r.records) <= b
      && (!r.truncated <==> Pack(r.records) == b)
      && (r.truncated ==> var rest := b[|Pack(r.records)|..]; rest != [] && |rest| < RecordLen(rest))
  {
    if b != [] && RecordLen(b) <= |b| {
      hide PackSlot, RecordOf, RecordLen, ParseSlots, Pack;
      var n := RecordLen(b);
      var tail := b[n..];
      var r, rest := ParseSlots(b), ParseSlots(tail);
      PackParsed(tail);
      ParseCons(b);
      PackedRecord(b);
      PackCons(r.records);
      assert r.records[1..] == rest.records;
      PrefixBehind(b, n, Pack(rest.records));
    }
  }

  lemma PrefixBehind(b: bytes, n: nat, packed: bytes)
    requires n <= |b| && packed <= b[n..]
    ensures b[..n] + packed <= b
    ensures b[|b[..n] + packed|..] == b[n..][|packed|..]
    ensures b[..n] + packed == b <==> packed == b[n..]
  {
  }

  lemma SlotCodec(ss: seq<Slot>, b: bytes)
    requires AllValid(ss)
    ensures Pack(ss) == b <==> ParseSlots(b) == Parse(ss, false)
  {
    if Pack(ss) == b {
      ParsePacked(ss, []);
      assert Pack(ss) + [] == b && ss + [] == ss;
    } else {
      PackParsed(b);
    }
  }

  lemma PackInjective(ss: seq<Slot>, tt: seq<Slot>)
    requires AllValid(ss) && AllValid(tt) && Pack(ss) == Pack(tt)
    ensures ss == tt
  {
    SlotCodec(ss, Pack(ss));
    SlotCodec(tt, Pack(tt));
  }

  /** r is what lies wholly inside the first n bytes of the packed list, with a raise unless the cut is
      on a record boundary. */
  ghost predicate WholeRecords(ss: seq<Slot>, n: nat, r: Parse)
    requires AllValid(ss)
  {
    var k := |r.records|;
    && k <= |ss| && r.records == ss[..k]
    && |Pack(ss[..k])| <= n
    && (k < |ss| ==> n < |Pack(ss[..k + 1])|)
    && (r.truncated <==> n != |Pack(ss[..k])|)
  }

  /** Cutting a packed region after n bytes: the iterator yields exactly the records that lie wholly
      inside the cut, and raises exactly when the cut is not on a record boundary. */
  lemma {:induction false} TruncationExact(ss: seq<Slot>, n: nat)
    requires AllValid(ss) && n <= |Pack(ss)|
    ensures WholeRecords(ss, n, ParseSlots(Pack(ss)[..n]))
  {
    if ss != [] {
      if n < |PackSlot(ss[0])| {
        CutInsideFirst(ss, n);
      } else {
        hide PackSlot, RecordOf, RecordLen, Pack, ParseSlots, WholeRecords;
        PackCons(ss);
        var m := n - |PackSlot(ss[0])|;
        var cut := Pack(ss[1..])[..m];
        TruncationExact(ss[1..], m);
        assert Pack(ss)[..n] == PackSlot(ss[0]) + cut;
        RecordOfPacked(ss[0], cut);
        PackedNotEmpty(ss[0], cut);
        ParseCons(PackSlot(ss[0]) + cut);
        OneMoreRecord(ss, n, ParseSlots(cut));
      }
    }
  }

  lemma OneMoreRecord(ss: seq<Slot>, n: nat, r: Parse)
    requires AllValid(ss) && ss != [] && n >= |PackSlot(ss[0])|
    requires WholeRecords(ss[1..], n - |PackSlot(ss[0])|, r)
    ensures WholeRecords(ss, n, Parse([ss[0]] + r.records, r.truncated))
  {
    hide PackSlot, Pack;
    var k := |r.records|;
    PackPrefix(ss, k);
    if k + 1 < |ss| {
      PackPrefix(ss, k + 1);
    }
    assert ss[..k + 1] == [ss[0]] + ss[1..][..k];
  }

  lemma PackCons(ss: seq<Slot>)
    requires AllValid(ss) && ss != []
    ensures Pack(ss) == PackSlot(ss[0]) + Pack(ss[1..]) && Pack(ss[..0]) == []
  {
  }

  lemma PackPrefix(ss: seq<Slot>, k: nat)
    requires AllValid(ss) && k < |ss|
    ensures Pack(ss[..k + 1]) == PackSlot(ss[0]) + Pack(ss[1..][..k])
  {
    assert ss[..k + 1][1..] == ss[1..][..k];
  }

  lemma CutInsideFirst(ss: seq<Slot>, n: nat)
    requires AllValid(ss) && ss != [] && n < |PackSlot(ss[0])|
    ensures n <= |Pack(ss)| && ParseSlots(Pack(ss)[..n]) == Parse([], n != 0)
    ensures ss[..0] == [] && |Pack(ss[..1])| == |PackSlot(ss[0])|
  {
    PackPrefix(ss, 0);
    var cut := Pack(ss)[..n];
    if n > 0 {
      assert cut[0] == PackSlot(ss[0])[0] == |ss[0].kid|;
    }
  }

  lemma {:induction false} PackAppend(ss: seq<Slot>, s: Slot)
    requires AllValid(ss) && s.Valid()
    ensures Pack(ss + [s]) == Pack(ss) + PackSlot(s)
  {
    hide PackSlot;
    if ss == [] {
      assert [] + [s] == [s] && [s][1..] == [];
      assert Pack([s]) == PackSlot(s) + [];
    } else {
      PackAppend(ss[1..], s);
      assert (ss + [s])[1..] == ss[1..] + [s];
      assert Pack(ss + [s]) == PackSlot(ss[0]) + (Pack(ss[1..]) + PackSlot(s));
    }
  }

  // ---- looking a slot up ----

  /** The index of the first record whose decoded key id is kid; their number when there is none. */
  function FirstMatch(records: seq<Slot>, kid: text): (n: nat)
    ensures n <= |records|
    ensures forall i :: 0 <= i < n ==> Utf8.DecodeReplace(records[i].kid) != kid
    ensures n < |records| ==> Utf8.DecodeReplace(records[n].kid) == kid
  {
    if records == [] || Utf8.DecodeReplace(records[0].kid) == kid then 0 else 1 + FirstMatch(records[1..], kid)
  }

  /** A match depends on nothing that follows it. */
  lemma {:induction false} FirstMatchPrefix(ss: seq<Slot>, tt: seq<Slot>, kid: text)
    requires FirstMatch(ss, kid) < |ss|
    ensures FirstMatch(ss + tt, kid) == FirstMatch(ss, kid)
  {
    if FirstMatch(ss, kid) > 0 {
      FirstMatchPrefix(ss[1..], tt, kid);
      assert (ss + tt)[1..] == ss[1..] + tt;
    }
  }
}
