/** How far the canonical JSON form determines a value, and when a value read back is written as it was. */
module JsonCanonical {
  import opened Basics
  import opened Ordering
  import opened Json
  import opened JsonRoundTrip

  // ---- sorted keys and their paired forms ----

  ghost predicate Increasing(keys: seq<text>) {
    forall i, j :: 0 <= i < j < |keys| ==> LexLeq(keys[i], keys[j]) && keys[i] != keys[j]
  }

  function PairedKeys(keys: seq<text>): (r: seq<text>)
    ensures |r| == |keys|
    ensures forall i :: 0 <= i < |r| ==> r[i] == Pair(keys[i])
  {
    seq(|keys|, i requires 0 <= i < |keys| => Pair(keys[i]))
  }

  /** In every dict of the value, pairing the keys neither merges two of them nor changes their order. */
  ghost predicate KeepsOrder(v: Json) {
    match v
    case Arr(items) => forall i :: 0 <= i < |items| ==> KeepsOrder(items[i])
    case Obj(fields) =>
      Increasing(PairedKeys(SortedKeys(fields.Keys))) && forall k :: k in fields ==> KeepsOrder(fields[k])
    case _ => true
  }

  lemma {:induction false} PlainKeepsOrder(v: Json)
    requires Plain(v)
    ensures KeepsOrder(v)
  {
    match v
    case Arr(items) =>
      forall i | 0 <= i < |items|
        ensures KeepsOrder(items[i])
      {
        PlainKeepsOrder(items[i]);
      }
    case Obj(fields) =>
      forall k | k in fields
        ensures KeepsOrder(fields[k])
      {
        PlainKeepsOrder(fields[k]);
      }
      PairedAlready(SortedKeys(fields.Keys));
      SortedKeysIncreasing(fields.Keys);
    case _ =>
  }

  lemma PairedAlready(keys: seq<text>)
    requires forall k :: k in keys ==> WellPaired(k)
    ensures PairedKeys(keys) == keys
  {
    hide WellPaired;
    forall i | 0 <= i < |keys|
      ensures Pair(keys[i]) == keys[i]
    {
      assert keys[i] in keys;
      PairIdentity(keys[i]);
    }
  }

  // ---- where the order is kept, pairing does not show ----

  ghost predicate PairsMembers(v: Json, keys: seq<text>, m: map<text, Json>)
    requires v.Obj? && forall k :: k in keys ==> k in v.fields
  {
    forall i :: 0 <= i < |keys| ==> Pair(keys[i]) in m && m[Pair(keys[i])] == PairJson(v.fields[keys[i]])
  }

  lemma {:induction false} PairMembersApart(v: Json, keys: seq<text>, fields: map<text, Json>)
    requires v.Obj? && forall k :: k in keys ==> k in v.fields
    requires forall i, j :: 0 <= i < j < |keys| ==> Pair(keys[i]) != Pair(keys[j])
    ensures var m := PairMembers(v, keys, fields);
      && PairsMembers(v, keys, m)
      && (forall k :: k in m <==> k in fields || k in PairedKeys(keys))
      && (forall k :: k in fields && k !in PairedKeys(keys) ==> m[k] == fields[k])
    decreases |keys|
  {
    if keys != [] {
      hide PairJson, Pair, PairMembers;
      var p, w := Pair(keys[0]), PairJson(v.fields[keys[0]]);
      PairMembersApart(v, keys[1..], fields[p := w]);
      PairMembersCons(v, keys, fields);
      PairedCons(keys);
      FirstApart(keys);
      PairsMembersCons(v, keys, PairMembers(v, keys, fields));
      hide PairsMembers, PairedKeys;
    }
  }

  lemma FirstApart(keys: seq<text>)
    requires keys != [] && forall i, j :: 0 <= i < j < |keys| ==> Pair(keys[i]) != Pair(keys[j])
    ensures Pair(keys[0]) !in PairedKeys(keys[1..])
  {
    hide Pair;
    assert forall i :: 1 <= i < |keys| ==> keys[i] == keys[1..][i - 1];
  }

  lemma PairsMembersCons(v: Json, keys: seq<text>, m: map<text, Json>)
    requires v.Obj? && keys != [] && forall k :: k in keys ==> k in v.fields
    requires PairsMembers(v, keys[1..], m)
    ensures Pair(keys[0]) in m && m[Pair(keys[0])] == PairJson(v.fields[keys[0]]) ==> PairsMembers(v, keys, m)
  {
    hide Pair, PairJson;
    assert forall i :: 1 <= i < |keys| ==> keys[i] == keys[1..][i - 1];
  }

  /** The dict that pairing makes of one whose order it keeps. */
  lemma PairedDict(v: Json)
    requires v.Obj? && Increasing(PairedKeys(SortedKeys(v.fields.Keys)))
    ensures var keys := SortedKeys(v.fields.Keys);
      && PairJson(v).Obj? && PairsMembers(v, keys, PairJson(v).fields)
      && SortedKeys(PairJson(v).fields.Keys) == PairedKeys(keys)
  {
    hide LexLeq, Pair, PairJson, PairMembers, SortedKeys;
    var keys := SortedKeys(v.fields.Keys);
    assert forall i, j :: 0 <= i < j < |keys| ==> PairedKeys(keys)[i] != PairedKeys(keys)[j];
    PairMembersApart(v, keys, map[]);
    PairedObject(v);
    SortedKeysUnique(PairJson(v).fields.Keys, PairedKeys(keys));
  }

  /** Such a value is written as its paired form is. */
  lemma {:induction false} DumpsForgetsPairing(v: Json)
    requires KeepsOrder(v)
    ensures Dumps(v) == Dumps(PairJson(v))
    decreases v, 1, 0
  {
    match v
    case Str(s) => EscapeForgetsPairing(s);
    case Arr(items) => ItemsForgetPairing(items);
    case Obj(fields) =>
      PairedDict(v);
      MembersForgetPairing(v, SortedKeys(fields.Keys), PairJson(v));
      DumpsObject(v);
      DumpsObject(PairJson(v));
    case _ =>
  }

  lemma DumpsObject(v: Json)
    requires v.Obj?
    ensures Dumps(v) == [OPEN_OBJECT] + DumpsMembers(v, SortedKeys(v.fields.Keys)) + [CLOSE_OBJECT]
  {
  }

  lemma {:induction false} ItemsForgetPairing(items: seq<Json>)
    requires forall i :: 0 <= i < |items| ==> KeepsOrder(items[i])
    ensures DumpsItems(items) == DumpsItems(PairItems(items))
    decreases items, 0, 0
  {
    if items != [] {
      hide Dumps, PairJson, KeepsOrder;
      DumpsForgetsPairing(items[0]);
      ItemsForgetPairing(items[1..]);
      assert PairItems(items)[1..] == PairItems(items[1..]);
    }
  }

  lemma MembersUnfold(v: Json, keys: seq<text>)
    requires v.Obj? && keys != [] && forall k :: k in keys ==> k in v.fields
    ensures DumpsMembers(v, keys)
         == DumpsStr(keys[0]) + [COLON] + Dumps(v.fields[keys[0]])
            + (if |keys| == 1 then [] else [COMMA] + DumpsMembers(v, keys[1..]))
    ensures DumpsMembers(v, []) == []
  {
    hide Dumps, DumpsStr;
  }

  lemma {:induction false} MembersForgetPairing(v: Json, keys: seq<text>, w: Json)
    requires v.Obj? && w.Obj? && forall k :: k in keys ==> k in v.fields && KeepsOrder(v.fields[k])
    requires PairsMembers(v, keys, w.fields)
    ensures forall k :: k in PairedKeys(keys) ==> k in w.fields
    ensures DumpsMembers(v, keys) == DumpsMembers(w, PairedKeys(keys))
    decreases v, 0, |keys|
  {
    if keys != [] {
      hide Dumps, DumpsMembers, PairJson, KeepsOrder, Pair, Escape;
      DumpsForgetsPairing(v.fields[keys[0]]);
      EscapeForgetsPairing(keys[0]);
      assert forall i :: 1 <= i < |keys| ==> keys[i] == keys[1..][i - 1];
      MembersForgetPairing(v, keys[1..], w);
      PairedCons(keys);
      assert PairedKeys(keys)[1..] == PairedKeys(keys[1..]);
      MembersUnfold(v, keys);
      MembersUnfold(w, PairedKeys(keys));
    }
  }

  // ---- where it is not, pairing shows ----

  lemma {:induction false} PairedWellFormed(v: Json)
    requires WellFormed(v)
    ensures WellFormed(PairJson(v))
    decreases v, 1, 0
  {
    match v
    case Arr(items) =>
      forall i | 0 <= i < |items|
        ensures WellFormed(PairItems(items)[i])
      {
        PairItemsAt(items, i);
        PairedWellFormed(items[i]);
      }
    case Obj(fields) =>
      PairedMembersWellFormed(v, SortedKeys(fields.Keys), map[]);
      PairedObject(v);
    case _ =>
  }

  lemma {:induction false} PairedMembersWellFormed(v: Json, keys: seq<text>, fields: map<text, Json>)
    requires v.Obj? && WellFormed(v) && forall k :: k in keys ==> k in v.fields
    requires forall k :: k in fields ==> WellFormed(fields[k])
    ensures var m := PairMembers(v, keys, fields); forall k :: k in m ==> WellFormed(m[k])
    decreases v, 0, |keys|
  {
    if keys != [] {
      hide PairJson, Pair;
      PairedWellFormed(v.fields[keys[0]]);
      PairedMembersWellFormed(v, keys[1..], fields[Pair(keys[0]) := PairJson(v.fields[keys[0]])]);
      PairMembersCons(v, keys, fields);
      hide PairMembers, WellFormed;
    }
  }

  /** Values with something behind them that no number continues: equal bytes are cut at one place. */
  lemma ValuesCut(v: Json, tail: text, w: Json, tail': text)
    requires WellFormed(v) && WellFormed(w) && Stops(tail) && Stops(tail')
    requires Dumps(v) + tail == Dumps(w) + tail'
    ensures Dumps(v) == Dumps(w) && tail == tail'
  {
    hide Dumps, ParseValue, PairJson, WellFormed, Stops;
    ParseDumps(v, tail);
    ParseDumps(w, tail');
    assert |Dumps(v)| == |Dumps(w)|;
    assert Dumps(v) == (Dumps(v) + tail)[..|Dumps(v)|] && Dumps(w) == (Dumps(w) + tail')[..|Dumps(w)|];
  }

  lemma KeysCut(k: text, rest: text, k': text, rest': text)
    requires DumpsStr(k) + rest == DumpsStr(k') + rest'
    ensures Pair(k) == Pair(k') && rest == rest'
  {
    hide Escape, ScanString, Pair;
    var t := DumpsStr(k) + rest;
    assert t[1..] == Escape(k) + [QUOTE] + rest;
    assert (DumpsStr(k') + rest')[1..] == Escape(k') + [QUOTE] + rest';
    ScanDumped(k, rest);
    ScanDumped(k', rest');
  }

  lemma {:induction false} ItemsCut(items: seq<Json>, items': seq<Json>, rest: text, rest': text)
    requires |items| == |items'|
    requires forall i :: 0 <= i < |items| ==> WellFormed(items[i]) && WellFormed(items'[i])
    requires DumpsItems(items) + [CLOSE_ARRAY] + rest == DumpsItems(items') + [CLOSE_ARRAY] + rest'
    ensures forall i :: 0 <= i < |items| ==> Dumps(items[i]) == Dumps(items'[i])
    decreases |items|
  {
    if items != [] {
      hide Dumps, DumpsItems, WellFormed, PairJson, PairItems;
      var tail, more := ItemFirst(items, rest);
      var tail', more' := ItemFirst(items', rest');
      ValuesCut(items[0], tail, items'[0], tail');
      if |items| > 1 {
        assert more == tail[1..] == tail'[1..] == more';
        ItemsCut(items[1..], items'[1..], rest, rest');
      }
    }
  }

  lemma ItemFirst(items: seq<Json>, rest: text) returns (tail: text, more: text)
    requires items != []
    ensures DumpsItems(items) + [CLOSE_ARRAY] + rest == Dumps(items[0]) + tail && Stops(tail) && tail != []
    ensures |items| > 1 ==> more == DumpsItems(items[1..]) + [CLOSE_ARRAY] + rest && tail[1..] == more
  {
    hide Dumps, DumpsItems;
    ItemsUnfold(items);
    if |items| == 1 {
      tail, more := [CLOSE_ARRAY] + rest, [];
      assert DumpsItems(items) + [CLOSE_ARRAY] + rest == Dumps(items[0]) + tail;
    } else {
      more := DumpsItems(items[1..]) + [CLOSE_ARRAY] + rest;
      tail := [COMMA] + more;
      Regroup(Dumps(items[0]), DumpsItems(items[1..]), rest);
    }
  }

  lemma MemberFirst(v: Json, keys: seq<text>, rest: text) returns (tail: text, more: text)
    requires v.Obj? && keys != [] && forall k :: k in keys ==> k in v.fields
    ensures DumpsMembers(v, keys) + [CLOSE_OBJECT] + rest
         == DumpsStr(keys[0]) + ([COLON] + (Dumps(v.fields[keys[0]]) + tail))
    ensures Stops(tail) && tail != [] && (tail[0] == CLOSE_OBJECT <==> |keys| == 1)
    ensures |keys| > 1 ==> more == DumpsMembers(v, keys[1..]) + [CLOSE_OBJECT] + rest && tail[1..] == more
  {
    hide Dumps, DumpsStr;
    var key, item := DumpsStr(keys[0]), Dumps(v.fields[keys[0]]);
    if |keys| == 1 {
      tail, more := [CLOSE_OBJECT] + rest, [];
      assert DumpsMembers(v, keys) == key + [COLON] + item;
    } else {
      more := DumpsMembers(v, keys[1..]) + [CLOSE_OBJECT] + rest;
      tail := [COMMA] + more;
      assert DumpsMembers(v, keys) == key + [COLON] + item + [COMMA] + DumpsMembers(v, keys[1..]);
    }
  }

  lemma FirstCut(v: Json, keys: seq<text>, w: Json, keys': seq<text>, rest: text, rest': text)
    requires v.Obj? && w.Obj? && (forall k :: k in keys ==> k in v.fields) && (forall k :: k in keys' ==> k in w.fields)
    requires WellFormed(v) && WellFormed(w) && keys != [] && keys' != []
    requires DumpsMembers(v, keys) + [CLOSE_OBJECT] + rest == DumpsMembers(w, keys') + [CLOSE_OBJECT] + rest'
    ensures Pair(keys[0]) == Pair(keys'[0]) && Dumps(v.fields[keys[0]]) == Dumps(w.fields[keys'[0]])
    ensures |keys| == 1 <==> |keys'| == 1
    ensures |keys| > 1 ==>
              DumpsMembers(v, keys[1..]) + [CLOSE_OBJECT] + rest == DumpsMembers(w, keys'[1..]) + [CLOSE_OBJECT] + rest'
  {
    hide Dumps, DumpsMembers, DumpsStr, WellFormed, Pair, Stops;
    var tail, more := MemberFirst(v, keys, rest);
    var tail', more' := MemberFirst(w, keys', rest');
    var t, t' := Dumps(v.fields[keys[0]]) + tail, Dumps(w.fields[keys'[0]]) + tail';
    KeysCut(keys[0], [COLON] + t, keys'[0], [COLON] + t');
    assert t == ([COLON] + t)[1..] && t' == ([COLON] + t')[1..];
    FieldWellFormed(v, keys[0]);
    FieldWellFormed(w, keys'[0]);
    ValuesCut(v.fields[keys[0]], tail, w.fields[keys'[0]], tail');
  }

  lemma {:induction false} MembersCut(v: Json, keys: seq<text>, w: Json, keys': seq<text>, rest: text, rest': text)
    requires v.Obj? && w.Obj? && (forall k :: k in keys ==> k in v.fields) && (forall k :: k in keys' ==> k in w.fields)
    requires WellFormed(v) && WellFormed(w)
    requires DumpsMembers(v, keys) + [CLOSE_OBJECT] + rest == DumpsMembers(w, keys') + [CLOSE_OBJECT] + rest'
    ensures PairedKeys(keys) == PairedKeys(keys')
    ensures forall i :: 0 <= i < |keys| ==> Dumps(v.fields[keys[i]]) == Dumps(w.fields[keys'[i]])
    decreases |keys|
  {
    hide Dumps, DumpsMembers, DumpsStr, WellFormed, Pair, Stops;
    MembersEmpty(v, keys, rest);
    MembersEmpty(w, keys', rest');
    if keys != [] && keys' != [] {
      FirstCut(v, keys, w, keys', rest, rest');
      PairedCons(keys);
      PairedCons(keys');
      if |keys| > 1 {
        MembersCut(v, keys[1..], w, keys'[1..], rest, rest');
        assert forall i :: 1 <= i < |keys| ==> keys[i] == keys[1..][i - 1] && keys'[i] == keys'[1..][i - 1];
      }
    }
  }

  lemma PairedCons(keys: seq<text>)
    requires keys != []
    ensures PairedKeys(keys) == [Pair(keys[0])] + PairedKeys(keys[1..])
    ensures |keys| == 1 ==> PairedKeys(keys) == [Pair(keys[0])]
  {
    hide Pair;
  }

  lemma MembersEmpty(v: Json, keys: seq<text>, rest: text)
    requires v.Obj? && forall k :: k in keys ==> k in v.fields
    ensures var t := DumpsMembers(v, keys) + [CLOSE_OBJECT] + rest; t != [] && (t[0] == CLOSE_OBJECT <==> keys == [])
  {
    MembersStart(v, keys);
    hide DumpsMembers;
    var m := DumpsMembers(v, keys);
    assert m != [] ==> (m + [CLOSE_OBJECT] + rest)[0] == m[0];
    assert m == [] ==> (m + [CLOSE_OBJECT] + rest)[0] == CLOSE_OBJECT;
  }

  /** A value read back is written as it was exactly when pairing keeps the order of its keys. */
  lemma {:induction false} PairingShows(v: Json)
    requires WellFormed(v)
    ensures Dumps(PairJson(v)) == Dumps(v) <==> KeepsOrder(v)
    decreases v
  {
    if KeepsOrder(v) {
      DumpsForgetsPairing(v);
    } else if Dumps(PairJson(v)) == Dumps(v) {
      match v
      case Arr(items) => ArrayShows(items);
      case Obj(fields) => ObjectShows(v);
    }
  }

  lemma ArrayInside(items: seq<Json>)
    ensures Dumps(Arr(items)) != [] && Dumps(Arr(items))[1..] == DumpsItems(items) + [CLOSE_ARRAY] + []
  {
    hide DumpsItems;
    assert Dumps(Arr(items)) == [OPEN_ARRAY] + (DumpsItems(items) + [CLOSE_ARRAY] + []);
  }

  lemma {:induction false} ArrayShows(items: seq<Json>)
    requires WellFormed(Arr(items)) && Dumps(PairJson(Arr(items))) == Dumps(Arr(items))
    ensures KeepsOrder(Arr(items))
    decreases items
  {
    PairedWellFormed(Arr(items));
    var paired := PairItems(items);
    ArrayInside(items);
    ArrayInside(paired);
    hide Dumps, DumpsItems, PairItems;
    ItemsCut(items, paired, [], []);
    forall i | 0 <= i < |items|
      ensures KeepsOrder(items[i])
    {
      PairItemsAt(items, i);
      PairingShows(items[i]);
    }
  }

  lemma {:induction false} ObjectShows(v: Json)
    requires v.Obj? && WellFormed(v) && Dumps(PairJson(v)) == Dumps(v)
    ensures KeepsOrder(v)
    decreases v, 0, 1
  {
    hide Dumps, PairJson, LexLeq, Pair, WellFormed;
    var keys' := ObjectKeys(v);
    PairedDict(v);
    FieldsShow(v, SortedKeys(v.fields.Keys));
  }

  lemma {:induction false} FieldsShow(v: Json, keys: seq<text>)
    requires v.Obj? && WellFormed(v) && PairJson(v).Obj? && (forall k :: k in keys ==> k in v.fields)
    requires PairsMembers(v, keys, PairJson(v).fields)
    requires forall i :: 0 <= i < |keys| ==> Dumps(v.fields[keys[i]]) == Dumps(PairJson(v).fields[Pair(keys[i])])
    ensures forall k :: k in keys ==> KeepsOrder(v.fields[k])
    decreases v, 0, 0
  {
    hide Dumps, PairJson, Pair, WellFormed, KeepsOrder;
    forall k | k in keys
      ensures KeepsOrder(v.fields[k])
    {
      var i :| 0 <= i < |keys| && keys[i] == k;
      FieldWellFormed(v, k);
      PairingShows(v.fields[k]);
    }
  }

  lemma FieldWellFormed(v: Json, k: text)
    requires v.Obj? && WellFormed(v) && k in v.fields
    ensures WellFormed(v.fields[k])
  {
  }

  lemma PairedObjectKeys(v: Json)
    requires v.Obj? && WellFormed(v)
    ensures PairJson(v).Obj? && WellFormed(PairJson(v))
    ensures var keys' := SortedKeys(PairJson(v).fields.Keys); Increasing(keys') && PairedKeys(keys') == keys'
  {
    hide Dumps, PairJson, WellPaired, LexLeq, Pair, WellFormed, PairMembers;
    PairedObject(v);
    PairedWellFormed(v);
    PairMembersKeys(v, SortedKeys(v.fields.Keys), map[]);
    var ks := PairJson(v).fields.Keys;
    SortedKeysIncreasing(ks);
    PairedAlready(SortedKeys(ks));
  }

  /** Equal dumped forms: the keys correspond one to one, in order, and so do the values' dumped forms. */
  lemma ObjectKeys(v: Json) returns (keys': seq<text>)
    requires v.Obj? && WellFormed(v) && Dumps(PairJson(v)) == Dumps(v)
    ensures PairJson(v).Obj? && keys' == PairedKeys(SortedKeys(v.fields.Keys)) && Increasing(keys')
    ensures forall k :: k in keys' ==> k in PairJson(v).fields
    ensures var keys := SortedKeys(v.fields.Keys);
      forall i :: 0 <= i < |keys| ==> Dumps(v.fields[keys[i]]) == Dumps(PairJson(v).fields[keys'[i]])
  {
    hide Dumps, PairJson, Pair, DumpsMembers, WellFormed, Increasing, PairedKeys, SortedKeys;
    var w, keys := PairJson(v), SortedKeys(v.fields.Keys);
    PairedObjectKeys(v);
    keys' := SortedKeys(w.fields.Keys);
    ObjectInside(v, keys);
    ObjectInside(w, keys');
    MembersCut(v, keys, w, keys', [], []);
  }

  lemma ObjectInside(v: Json, keys: seq<text>)
    requires v.Obj? && keys == SortedKeys(v.fields.Keys)
    ensures Dumps(v) != [] && Dumps(v)[1..] == DumpsMembers(v, keys) + [CLOSE_OBJECT] + []
  {
    DumpsObject(v);
    hide Dumps, DumpsMembers, SortedKeys;
    var m: text := DumpsMembers(v, keys);
    assert Dumps(v) == [OPEN_OBJECT] + (m + [CLOSE_OBJECT] + []);
  }

  // ---- self-delimiting ----

  /** Dumped objects are self-delimiting: whatever bytes follow them, equal bytes mean equal objects
      (up to pairing) and equal remainders; where pairing keeps the order of the keys, nothing less does. */
  lemma DumpsSelfDelimiting(v: Json, w: Json, x: bytes, y: bytes)
    requires v.Obj? && WellFormed(v) && w.Obj? && WellFormed(w)
    ensures Dumps(v) + x == Dumps(w) + y ==> PairJson(v) == PairJson(w) && x == y
    ensures KeepsOrder(v) && KeepsOrder(w) ==>
              (Dumps(v) + x == Dumps(w) + y <==> PairJson(v) == PairJson(w) && x == y)
  {
    hide Dumps, ParseValue, PairJson, KeepsOrder;
    ParseDumps(v, x);
    ParseDumps(w, y);
    if KeepsOrder(v) && KeepsOrder(w) {
      DumpsForgetsPairing(v);
      DumpsForgetsPairing(w);
    }
  }
}
