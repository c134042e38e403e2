/**
 * What decoding does to an encoding (lyntin/modules/msdp.py, `encode_msdp`
 * against `decode_msdp`).
 *
 * A frame of `MSDPVar`s decodes to the same variables when names and keys hold
 * no VAL byte, scalars hold no byte from 0 to 6, every dict has distinct keys,
 * and no `MSDPVar` is nested inside a value. A frame that lacks its epilogue
 * raises IndexError, not ValueError.
 */
module MsdpRoundTrip {
  import opened Common
  import opened MsdpCodec
  import opened MsdpDecode

  /** Scalar bytes the scalar scan does not stop at: no byte from chr(0) to chr(6). */
  predicate NoMarkers(s: seq<Byte>)
  {
    forall k | 0 <= k < |s| :: s[k] > ARRAY_CLOSE
  }

  /** Name or key bytes the name and key scans do not stop at. */
  predicate NoVal(s: seq<Byte>)
  {
    forall k | 0 <= k < |s| :: s[k] != VAL
  }

  /** A value that decodes back to itself from a value position. */
  predicate Nested(v: Val)
    decreases v
  {
    match v
    case Scalar(s) => NoMarkers(s)
    case Arr(items) => forall x | x in items :: Nested(x)
    case Table(entries) => DistinctKeys(entries) && forall e | e in entries :: NoVal(e.key) && Nested(e.value)
    case Var(_, _) => false
  }

  /** The elements of a frame that decodes back to them. */
  predicate FrameVars(vars: seq<Val>)
  {
    forall v | v in vars :: v.Var? && NoVal(v.name) && Nested(v.value)
  }

  /** Escaping adds only IAC bytes. */
  lemma {:induction false} EscapeKeepsNoMarkers(s: seq<Byte>)
    requires NoMarkers(s)
    ensures NoMarkers(Escape(s))
  {
    if s != [] {
      EscapeKeepsNoMarkers(s[1..]);
      var head := if s[0] == IAC then [IAC, IAC] else [s[0]];
      assert Escape(s) == head + Escape(s[1..]);
      forall k | 0 <= k < |Escape(s)| ensures Escape(s)[k] > ARRAY_CLOSE {
        if k >= |head| {
          assert Escape(s)[k] == Escape(s[1..])[k - |head|];
        }
      }
    }
  }

  /** `s` occurs in `text` at `i`. */
  predicate At(text: seq<Byte>, i: nat, s: seq<Byte>)
  {
    i + |s| <= |text| && forall k | 0 <= k < |s| :: text[i + k] == s[k]
  }

  lemma AtSuffix(a: seq<Byte>, b: seq<Byte>)
    ensures At(a + b, |a|, b)
  {
    forall k | 0 <= k < |b| ensures (a + b)[|a| + k] == b[k] {
    }
  }

  /** A byte that can follow an encoded value: a marker that ends or separates values, or the epilogue. */
  predicate Follows(text: seq<Byte>, p: nat)
  {
    && p < |text|
    && (|| text[p] == VAR || text[p] == VAL || text[p] == TABLE_CLOSE || text[p] == ARRAY_CLOSE
        || (text[p] == IAC && p + 1 < |text| && text[p + 1] != IAC))
  }

  lemma AtSplit(text: seq<Byte>, i: nat, a: seq<Byte>, b: seq<Byte>)
    requires At(text, i, a + b)
    ensures At(text, i, a) && At(text, i + |a|, b)
  {
    forall k | 0 <= k < |a| ensures text[i + k] == a[k] {
      assert a[k] == (a + b)[k];
    }
    forall k | 0 <= k < |b| ensures text[i + |a| + k] == b[k] {
      assert b[k] == (a + b)[|a| + k];
    }
  }

  lemma AtSlice(text: seq<Byte>, i: nat, s: seq<Byte>)
    requires At(text, i, s)
    ensures text[i..i + |s|] == s
  {
    forall k | 0 <= k < |s| ensures text[i..i + |s|][k] == s[k] {
      assert text[i + k] == s[k];
    }
  }

  /** `text` at `i` holds `[m] + s + [VAL] + rest`; the scan for VAL from `i + 1` stops after `s`. */
  lemma {:induction false} ScanPastName(text: seq<Byte>, i: nat, s: seq<Byte>)
    requires NoVal(s) && At(text, i, s + [VAL])
    decreases |s|
    ensures i + |s| < |text| && text[i + |s|] == VAL
    ensures KeyEnd(text, i) == Some(i + |s|) && NameEnd(text, i) == i + |s|
  {
    AtSplit(text, i, s, [VAL]);
    AtHead(text, i + |s|, [VAL]);
    if s != [] {
      AtSplit(text, i, [s[0]], s[1..] + [VAL]);
      AtHead(text, i, [s[0]]);
      assert s[1..] + [VAL] == (s + [VAL])[1..];
      ScanPastName(text, i + 1, s[1..]);
    }
  }

  /** The scalar scan over an escaped scalar stops right after it. */
  lemma {:induction false} ScanPastEscape(text: seq<Byte>, i: nat, s: seq<Byte>)
    requires NoMarkers(s) && At(text, i, Escape(s))
    requires Follows(text, i + |Escape(s)|) || i + |Escape(s)| == |text|
    decreases |s|
    ensures ScalarEnd(text, i) == i + |Escape(s)|
  {
    if s == [] {
      assert |Escape(s)| == 0;
    } else {
      var h := ScanEscapedHead(text, i, s);
      var j := i + h;
      assert j + |Escape(s[1..])| == i + |Escape(s)|;
      ScanPastEscape(text, j, s[1..]);
    }
  }

  /** The scalar scan passes the escaping of the first byte of `s` as one step. */
  lemma ScanEscapedHead(text: seq<Byte>, i: nat, s: seq<Byte>) returns (h: nat)
    requires s != [] && NoMarkers(s) && At(text, i, Escape(s))
    ensures h + |Escape(s[1..])| == |Escape(s)|
    ensures NoMarkers(s[1..]) && At(text, i + h, Escape(s[1..]))
    ensures ScalarEnd(text, i) == ScalarEnd(text, i + h)
  {
    assert s == [s[0]] + s[1..];
    EscapeCons(s[0], s[1..]);
    var head := if s[0] == IAC then [IAC, IAC] else [s[0]];
    h := |head|;
    AtSplit(text, i, head, Escape(s[1..]));
    AtHead(text, i, head);
    assert s[0] > ARRAY_CLOSE;
  }

  // ---------------------------------------------------------------------
  // Where the parts of an encoding sit.

  lemma AtHead(text: seq<Byte>, i: nat, s: seq<Byte>)
    requires At(text, i, s) && s != []
    ensures i < |text| && text[i] == s[0]
    ensures |s| > 1 ==> text[i + 1] == s[1]
  {
    assert text[i + 0] == s[0];
    if |s| > 1 {
      assert text[i + 1] == s[1];
    }
  }

  /** `[m] + enc + tail` at `i`: the marker, then the rest. */
  lemma AtItem(text: seq<Byte>, i: nat, m: Byte, enc: seq<Byte>, tail: seq<Byte>)
    requires At(text, i, [m] + enc + tail)
    ensures i < |text| && text[i] == m
    ensures At(text, i + 1, enc + tail) && At(text, i + 1, enc) && At(text, i + 1 + |enc|, tail)
  {
    assert [m] + enc + tail == [m] + (enc + tail);
    AtSplit(text, i, [m], enc + tail);
    AtHead(text, i, [m]);
    AtSplit(text, i + 1, enc, tail);
  }

  /** `[m] + name + [VAL] + enc + tail` at `i`: the marker, the name and its VAL, the value, then the rest. */
  lemma AtEntry(text: seq<Byte>, i: nat, m: Byte, name: seq<Byte>, enc: seq<Byte>, tail: seq<Byte>)
    requires At(text, i, [m] + name + [VAL] + enc + tail)
    ensures i < |text| && text[i] == m
    ensures At(text, i + 1, name + [VAL])
    ensures At(text, i + 2 + |name|, enc) && At(text, i + 2 + |name| + |enc|, tail)
  {
    assert [m] + name + [VAL] + enc + tail == [m] + ((name + [VAL]) + (enc + tail));
    AtSplit(text, i, [m], (name + [VAL]) + (enc + tail));
    AtHead(text, i, [m]);
    AtSplit(text, i + 1, name + [VAL], enc + tail);
    AtSplit(text, i + 2 + |name|, enc, tail);
  }

  lemma EntriesLayout(entries: seq<Entry>)
    requires entries != []
    ensures EncodeEntries(entries) + [TABLE_CLOSE]
      == [VAR] + entries[0].key + [VAL] + Encode(entries[0].value, false) + (EncodeEntries(entries[1..]) + [TABLE_CLOSE])
    ensures |EncodeEntries(entries)| == 2 + |entries[0].key| + |Encode(entries[0].value, false)| + |EncodeEntries(entries[1..])|
    ensures var t := EncodeEntries(entries[1..]) + [TABLE_CLOSE]; t[0] == VAR || t[0] == TABLE_CLOSE
  {
    if entries[1..] != [] {
      assert EncodeEntries(entries[1..])[0] == VAR;
    }
  }

  lemma ItemsLayout(items: seq<Val>)
    requires items != []
    ensures EncodeItems(items) + [ARRAY_CLOSE]
      == [VAL] + Encode(items[0], false) + (EncodeItems(items[1..]) + [ARRAY_CLOSE])
    ensures |EncodeItems(items)| == 1 + |Encode(items[0], false)| + |EncodeItems(items[1..])|
    ensures var t := EncodeItems(items[1..]) + [ARRAY_CLOSE]; t[0] == VAL || t[0] == ARRAY_CLOSE
  {
    if items[1..] != [] {
      assert EncodeItems(items[1..])[0] == VAL;
    }
  }

  lemma VarsLayout(vars: seq<Val>, after: seq<Byte>)
    requires vars != [] && forall v | v in vars :: v.Var?
    requires after == EPILOGUE || after == []
    ensures vars[0].Var?
    ensures EncodeAll(vars) + after
      == [VAR] + vars[0].name + [VAL] + Encode(vars[0].value, false) + (EncodeAll(vars[1..]) + after)
    ensures |EncodeAll(vars)| == 2 + |vars[0].name| + |Encode(vars[0].value, false)| + |EncodeAll(vars[1..])|
    ensures var t := EncodeAll(vars[1..]) + after; t == [] || t[0] == VAR || (|t| > 1 && t[0] == IAC && t[1] != IAC)
  {
    assert vars[0] in vars;
    if vars[1..] != [] {
      assert vars[1..][0] in vars;
      assert EncodeAll(vars[1..])[0] == VAR;
    }
  }

  // ---------------------------------------------------------------------
  // One step of each reader.

  lemma ReadValScalarStep(text: seq<Byte>, i: nat, j: nat, s: seq<Byte>)
    requires i < |text| && text[i] != TABLE_OPEN && text[i] != ARRAY_OPEN
    requires ScalarEnd(text, i) == j && Collapse(text[i..j]) == s
    ensures ReadVal(text, i) == Ok((Scalar(s), j))
  {
  }

  lemma ReadValTableStep(text: seq<Byte>, i: nat, entries: seq<Entry>, j: nat)
    requires i < |text| && text[i] == TABLE_OPEN
    requires ReadTable(text, i + 1, []) == Ok((entries, j)) && j < |text| && text[j] == TABLE_CLOSE
    ensures ReadVal(text, i) == Ok((Table(entries), j + 1))
  {
  }

  lemma ReadValArrayStep(text: seq<Byte>, i: nat, items: seq<Val>, j: nat)
    requires i < |text| && text[i] == ARRAY_OPEN
    requires ReadArray(text, i + 1, []) == Ok((items, j)) && j < |text| && text[j] == ARRAY_CLOSE
    ensures ReadVal(text, i) == Ok((Arr(items), j + 1))
  {
  }

  lemma ReadTableStep(text: seq<Byte>, i: nat, k: nat, acc: seq<Entry>, v: Val, j: nat)
    requires i < |text| && text[i] == VAR && KeyEnd(text, i + 1) == Some(k)
    requires ReadVal(text, k + 1) == Ok((v, j))
    ensures ReadTable(text, i, acc) == ReadTable(text, j, Put(acc, text[i + 1..k], v))
  {
    ReadTableEntry(text, i, k, acc);
  }

  lemma ReadArrayStep(text: seq<Byte>, i: nat, acc: seq<Val>, v: Val, j: nat)
    requires i < |text| && text[i] == VAL && ReadVal(text, i + 1) == Ok((v, j))
    ensures ReadArray(text, i, acc) == ReadArray(text, j, acc + [v])
  {
  }

  lemma ReadVarsStep(text: seq<Byte>, i: nat, k: nat, acc: seq<Val>, v: Val, j: nat)
    requires i < |text| && text[i] == VAR && NameEnd(text, i + 1) == k
    requires ReadVal(text, k + 1) == Ok((v, j))
    ensures ReadVars(text, i, acc) == ReadVars(text, j, acc + [Var(text[i + 1..k], v)])
  {
  }

  lemma ReadVarsStepErr(text: seq<Byte>, i: nat, k: nat, acc: seq<Val>)
    requires i < |text| && text[i] == VAR && NameEnd(text, i + 1) == k
    requires ReadVal(text, k + 1).Err?
    ensures ReadVars(text, i, acc) == Err(ReadVal(text, k + 1).error)
  {
  }

  // ---------------------------------------------------------------------
  // Reading an encoding.

  /** A value encoded at `i` reads back as itself, with the cursor just past its encoding. */
  lemma {:induction false} ReadValEncoded(text: seq<Byte>, i: nat, v: Val)
    requires Nested(v) && At(text, i, Encode(v, false))
    requires Follows(text, i + |Encode(v, false)|) || (i + |Encode(v, false)| == |text| && v != Scalar([]))
    decreases v, 2
    ensures ReadVal(text, i) == Ok((v, i + |Encode(v, false)|))
  {
    match v
    case Scalar(s) =>
      ReadScalarEncoded(text, i, s);
    case Table(entries) =>
      ReadTableValEncoded(text, i, entries);
    case Arr(items) =>
      ReadArrayValEncoded(text, i, items);
    case Var(_, _) =>
      assert false;
  }

  /** An escaped scalar reads back as itself. */
  lemma ReadScalarEncoded(text: seq<Byte>, i: nat, s: seq<Byte>)
    requires NoMarkers(s) && At(text, i, Escape(s))
    requires Follows(text, i + |Escape(s)|) || (i + |Escape(s)| == |text| && s != [])
    ensures ReadVal(text, i) == Ok((Scalar(s), i + |Escape(s)|))
  {
    if s != [] {
      EscapeKeepsNoMarkers(s);
      AtHead(text, i, Escape(s));
    }
    ScanPastEscape(text, i, s);
    AtSlice(text, i, Escape(s));
    CollapseEscape(s);
    ReadValScalarStep(text, i, i + |Escape(s)|, s);
  }

  /** An encoded dict reads back as itself. */
  lemma {:induction false} ReadTableValEncoded(text: seq<Byte>, i: nat, entries: seq<Entry>)
    requires Nested(Table(entries)) && At(text, i, Encode(Table(entries), false))
    decreases Table(entries), 1
    ensures ReadVal(text, i) == Ok((Table(entries), i + |Encode(Table(entries), false)|))
  {
    var body := EncodeEntries(entries);
    var j := i + 1 + |body|;
    AtItem(text, i, TABLE_OPEN, body, [TABLE_CLOSE]);
    AtHead(text, j, [TABLE_CLOSE]);
    assert [] + entries == entries;
    ReadTableEncoded(text, i + 1, entries, []);
    ReadValTableStep(text, i, entries, j);
  }

  /** An encoded nested list reads back as itself. */
  lemma {:induction false} ReadArrayValEncoded(text: seq<Byte>, i: nat, items: seq<Val>)
    requires Nested(Arr(items)) && At(text, i, Encode(Arr(items), false))
    decreases Arr(items), 1
    ensures ReadVal(text, i) == Ok((Arr(items), i + |Encode(Arr(items), false)|))
  {
    var body := EncodeItems(items);
    var j := i + 1 + |body|;
    AtItem(text, i, ARRAY_OPEN, body, [ARRAY_CLOSE]);
    AtHead(text, j, [ARRAY_CLOSE]);
    assert [] + items == items;
    ReadArrayEncoded(text, i + 1, items, []);
    ReadValArrayStep(text, i, items, j);
  }

  /** Dict entries encoded at `i`, up to a TABLE_CLOSE, read back in order after those already read. */
  lemma {:induction false} ReadTableEncoded(text: seq<Byte>, i: nat, entries: seq<Entry>, acc: seq<Entry>)
    requires forall e | e in entries :: NoVal(e.key) && Nested(e.value)
    requires DistinctKeys(acc + entries)
    requires At(text, i, EncodeEntries(entries) + [TABLE_CLOSE])
    decreases entries, 1
    ensures ReadTable(text, i, acc) == Ok((acc + entries, i + |EncodeEntries(entries)|))
  {
    if entries == [] {
      TableEndEncoded(text, i, entries, acc);
    } else {
      var q := ReadFirstEntry(text, i, entries, acc);
      ReadTableEncoded(text, q, entries[1..], acc + [entries[0]]);
    }
  }

  /** With no entries left, the table reader stops at the TABLE_CLOSE. */
  lemma TableEndEncoded(text: seq<Byte>, i: nat, entries: seq<Entry>, acc: seq<Entry>)
    requires entries == [] && At(text, i, EncodeEntries(entries) + [TABLE_CLOSE])
    ensures ReadTable(text, i, acc) == Ok((acc + entries, i + |EncodeEntries(entries)|))
  {
    assert EncodeEntries(entries) + [TABLE_CLOSE] == [TABLE_CLOSE];
    AtHead(text, i, [TABLE_CLOSE]);
    assert acc + entries == acc;
  }

  /** The first of the dict entries encoded at `i` is read; the others follow at `q`, under the same hypotheses. */
  lemma ReadFirstEntry(text: seq<Byte>, i: nat, entries: seq<Entry>, acc: seq<Entry>) returns (q: nat)
    requires entries != []
    requires forall e | e in entries :: NoVal(e.key) && Nested(e.value)
    requires DistinctKeys(acc + entries)
    requires At(text, i, EncodeEntries(entries) + [TABLE_CLOSE])
    decreases entries, 0
    ensures forall e | e in entries[1..] :: NoVal(e.key) && Nested(e.value)
    ensures DistinctKeys((acc + [entries[0]]) + entries[1..])
    ensures At(text, q, EncodeEntries(entries[1..]) + [TABLE_CLOSE])
    ensures ReadTable(text, q, acc + [entries[0]]) == Ok(((acc + [entries[0]]) + entries[1..], q + |EncodeEntries(entries[1..])|))
      ==> ReadTable(text, i, acc) == Ok((acc + entries, i + |EncodeEntries(entries)|))
  {
    var e, rest := entries[0], entries[1..];
    EntriesLayout(entries);
    EntriesStep(entries, acc);
    assert e in entries;
    q := ReadEntryEncoded(text, i, e, EncodeEntries(rest) + [TABLE_CLOSE], acc);
  }

  /** What the entries after the first, and the entries read so far with the first, still satisfy. */
  lemma EntriesStep(entries: seq<Entry>, acc: seq<Entry>)
    requires entries != []
    requires forall e | e in entries :: NoVal(e.key) && Nested(e.value)
    requires DistinctKeys(acc + entries)
    ensures NoVal(entries[0].key) && Nested(entries[0].value)
    ensures forall x | x in acc :: x.key != entries[0].key
    ensures forall x | x in entries[1..] :: NoVal(x.key) && Nested(x.value)
    ensures (acc + [entries[0]]) + entries[1..] == acc + entries
  {
    assert entries[0] in entries;
    forall x | x in acc ensures x.key != entries[0].key {
      var k :| 0 <= k < |acc| && acc[k] == x;
      assert (acc + entries)[k] == x && (acc + entries)[|acc|] == entries[0];
      KeysOfIndex(acc + entries, k);
      KeysOfIndex(acc + entries, |acc|);
    }
    forall x | x in entries[1..] ensures NoVal(x.key) && Nested(x.value) {
      assert x in entries;
    }
  }

  /**
   * One dict entry `VAR key VAL value` encoded at `i`, followed by another
   * entry or TABLE_CLOSE, is read and assigned into `acc` under a fresh key;
   * `q` is the cursor after it.
   */
  lemma ReadEntryEncoded(text: seq<Byte>, i: nat, e: Entry, tail: seq<Byte>, acc: seq<Entry>) returns (q: nat)
    requires NoVal(e.key) && Nested(e.value)
    requires forall x | x in acc :: x.key != e.key
    requires At(text, i, [VAR] + e.key + [VAL] + Encode(e.value, false) + tail)
    requires tail != [] && (tail[0] == VAR || tail[0] == TABLE_CLOSE)
    decreases e, 0
    ensures q == i + 2 + |e.key| + |Encode(e.value, false)|
    ensures ReadTable(text, i, acc) == ReadTable(text, q, acc + [e]) && At(text, q, tail)
  {
    var k := NamedAt(text, i, e.key, Encode(e.value, false), tail);
    q := k + 1 + |Encode(e.value, false)|;
    ReadValEncoded(text, k + 1, e.value);
    ReadTableStep(text, i, k, acc, e.value, q);
    PutNewKey(acc, e.key, e.value);
  }

  /** Array elements encoded at `i`, up to an ARRAY_CLOSE, read back in order after those already read. */
  lemma {:induction false} ReadArrayEncoded(text: seq<Byte>, i: nat, items: seq<Val>, acc: seq<Val>)
    requires forall x | x in items :: Nested(x)
    requires At(text, i, EncodeItems(items) + [ARRAY_CLOSE])
    decreases items, 1
    ensures ReadArray(text, i, acc) == Ok((acc + items, i + |EncodeItems(items)|))
  {
    if items == [] {
      ArrayEndEncoded(text, i, items, acc);
    } else {
      var q := ReadFirstItem(text, i, items, acc);
      ReadArrayEncoded(text, q, items[1..], acc + [items[0]]);
    }
  }

  /** With no elements left, the array reader stops at the ARRAY_CLOSE. */
  lemma ArrayEndEncoded(text: seq<Byte>, i: nat, items: seq<Val>, acc: seq<Val>)
    requires items == [] && At(text, i, EncodeItems(items) + [ARRAY_CLOSE])
    ensures ReadArray(text, i, acc) == Ok((acc + items, i + |EncodeItems(items)|))
  {
    assert EncodeItems(items) + [ARRAY_CLOSE] == [ARRAY_CLOSE];
    AtHead(text, i, [ARRAY_CLOSE]);
    assert acc + items == acc;
  }

  /** The first of the array elements encoded at `i` is read; the others follow at `q`. */
  lemma ReadFirstItem(text: seq<Byte>, i: nat, items: seq<Val>, acc: seq<Val>) returns (q: nat)
    requires items != []
    requires forall x | x in items :: Nested(x)
    requires At(text, i, EncodeItems(items) + [ARRAY_CLOSE])
    decreases items, 0
    ensures forall x | x in items[1..] :: Nested(x)
    ensures At(text, q, EncodeItems(items[1..]) + [ARRAY_CLOSE])
    ensures ReadArray(text, q, acc + [items[0]]) == Ok(((acc + [items[0]]) + items[1..], q + |EncodeItems(items[1..])|))
      ==> ReadArray(text, i, acc) == Ok((acc + items, i + |EncodeItems(items)|))
  {
    var x, rest := items[0], items[1..];
    ItemsLayout(items);
    ItemsStep(items, acc);
    assert x in items;
    q := ReadItemEncoded(text, i, x, EncodeItems(rest) + [ARRAY_CLOSE], acc);
  }

  /** What the elements after the first still satisfy. */
  lemma ItemsStep(items: seq<Val>, acc: seq<Val>)
    requires items != []
    requires forall x | x in items :: Nested(x)
    ensures Nested(items[0])
    ensures forall x | x in items[1..] :: Nested(x)
    ensures (acc + [items[0]]) + items[1..] == acc + items
  {
    assert items[0] in items;
    forall x | x in items[1..] ensures Nested(x) {
      assert x in items;
    }
  }

  /**
   * One array element `VAL value` encoded at `i`, followed by another element
   * or ARRAY_CLOSE, is read and appended to `acc`; `q` is the cursor after it.
   */
  lemma ReadItemEncoded(text: seq<Byte>, i: nat, x: Val, tail: seq<Byte>, acc: seq<Val>) returns (q: nat)
    requires Nested(x)
    requires At(text, i, [VAL] + Encode(x, false) + tail)
    requires tail != [] && (tail[0] == VAL || tail[0] == ARRAY_CLOSE)
    decreases x, 3
    ensures q == i + 1 + |Encode(x, false)|
    ensures ReadArray(text, i, acc) == ReadArray(text, q, acc + [x]) && At(text, q, tail)
  {
    var enc := Encode(x, false);
    AtItem(text, i, VAL, enc, tail);
    q := i + 1 + |enc|;
    AtHead(text, q, tail);
    ReadValEncoded(text, i + 1, x);
    ReadArrayStep(text, i, acc, x, q);
  }

  /** What `decode_msdp`'s loop returns on the encoding of `vars`, followed by `after`, in a text of length `n`. */
  function FrameResult(after: seq<Byte>, n: nat, vars: seq<Val>): Result<seq<Val>, DecodeError>
  {
    if after == [] then Err(IndexOutOfRange(n)) else Ok(vars)
  }

  /**
   * The variables of a frame, encoded at `i` and followed by `after`, read
   * back after those already read: with the epilogue after them the frame
   * decodes, with nothing after them `text[i]` runs off the end.
   */
  lemma {:induction false} ReadVarsEncoded(text: seq<Byte>, i: nat, vars: seq<Val>, acc: seq<Val>, after: seq<Byte>)
    requires FrameVars(vars)
    requires after == EPILOGUE || after == []
    requires At(text, i, EncodeAll(vars) + after) && i + |EncodeAll(vars)| + |after| == |text|
    decreases vars
    ensures ReadVars(text, i, acc) == FrameResult(after, |text|, acc + vars)
  {
    if vars == [] {
      assert acc + vars == acc;
      if after != [] {
        AtSlice(text, i, EncodeAll(vars) + after);
        assert text[i..] == text[i..i + 2];
      }
    } else {
      var q, done := ReadFirstVar(text, i, vars, acc, after);
      if !done {
        ReadVarsEncoded(text, q, vars[1..], acc + [vars[0]], after);
      }
    }
  }

  /**
   * The first variable of a frame encoded at `i` is read; unless that ends
   * the frame, the others follow at `q` under the same hypotheses.
   */
  lemma ReadFirstVar(text: seq<Byte>, i: nat, vars: seq<Val>, acc: seq<Val>, after: seq<Byte>) returns (q: nat, done: bool)
    requires vars != [] && FrameVars(vars)
    requires after == EPILOGUE || after == []
    requires At(text, i, EncodeAll(vars) + after) && i + |EncodeAll(vars)| + |after| == |text|
    ensures done ==> ReadVars(text, i, acc) == FrameResult(after, |text|, acc + vars)
    ensures !done ==> FrameVars(vars[1..])
    ensures !done ==> At(text, q, EncodeAll(vars[1..]) + after) && q + |EncodeAll(vars[1..])| + |after| == |text|
    ensures !done ==>
      ReadVars(text, q, acc + [vars[0]]) == FrameResult(after, |text|, (acc + [vars[0]]) + vars[1..])
      ==> ReadVars(text, i, acc) == FrameResult(after, |text|, acc + vars)
  {
    var v := vars[0];
    assert v in vars;
    VarsLayout(vars, after);
    forall x | x in vars[1..] ensures x.Var? && NoVal(x.name) && Nested(x.value) {
      assert x in vars;
    }
    q, done := ReadVarEncoded(text, i, v, EncodeAll(vars[1..]) + after, acc);
    assert acc + vars == (acc + [v]) + vars[1..];
  }

  /**
   * One `VAR name VAL value` encoded at `i` and followed by `tail`, which is
   * another variable, the epilogue or nothing, is read and appended to `acc`;
   * `q` is the cursor after it. With nothing after an empty scalar the read
   * of the value runs off the end, and `done` says so.
   */
  lemma ReadVarEncoded(text: seq<Byte>, i: nat, v: Val, tail: seq<Byte>, acc: seq<Val>) returns (q: nat, done: bool)
    requires v.Var? && NoVal(v.name) && Nested(v.value)
    requires At(text, i, [VAR] + v.name + [VAL] + Encode(v.value, false) + tail)
    requires i + 2 + |v.name| + |Encode(v.value, false)| + |tail| == |text|
    requires tail == [] || tail[0] == VAR || (|tail| > 1 && tail[0] == IAC && tail[1] != IAC)
    ensures done <==> tail == [] && v.value == Scalar([])
    ensures done ==> ReadVars(text, i, acc) == Err(IndexOutOfRange(|text|))
    ensures !done ==> q == i + 2 + |v.name| + |Encode(v.value, false)|
    ensures !done ==> ReadVars(text, i, acc) == ReadVars(text, q, acc + [v]) && At(text, q, tail)
  {
    var k := NamedAt(text, i, v.name, Encode(v.value, false), tail);
    q := k + 1 + |Encode(v.value, false)|;
    done := tail == [] && v.value == Scalar([]);
    if done {
      assert ReadVal(text, k + 1) == Err(IndexOutOfRange(|text|));
      ReadVarsStepErr(text, i, k, acc);
    } else {
      assert Follows(text, q) || (q == |text| && v.value != Scalar([]));
      ReadValEncoded(text, k + 1, v.value);
      ReadVarsStep(text, i, k, acc, v.value, q);
      assert Var(text[i + 1..k], v.value) == v;
    }
  }

  /**
   * Where the parts of `VAR name VAL enc tail` at `i` sit: the name ends at
   * `k`, where the key and name scans stop, and the encoded value starts
   * after it.
   */
  lemma NamedAt(text: seq<Byte>, i: nat, name: seq<Byte>, enc: seq<Byte>, tail: seq<Byte>) returns (k: nat)
    requires NoVal(name) && At(text, i, [VAR] + name + [VAL] + enc + tail)
    ensures k == i + 1 + |name| && k < |text|
    ensures text[i] == VAR && text[i + 1..k] == name
    ensures KeyEnd(text, i + 1) == Some(k) && NameEnd(text, i + 1) == k
    ensures At(text, k + 1, enc) && At(text, k + 1 + |enc|, tail)
    ensures tail != [] ==> text[k + 1 + |enc|] == tail[0]
    ensures |tail| > 1 ==> text[k + 2 + |enc|] == tail[1]
  {
    AtEntry(text, i, VAR, name, enc, tail);
    AtSplit(text, i + 1, name, [VAL]);
    ScanPastName(text, i + 1, name);
    AtSlice(text, i + 1, name);
    k := i + 1 + |name|;
    if tail != [] {
      AtHead(text, k + 1 + |enc|, tail);
    }
  }

  /** Round trip: a frame of `MSDPVar`s decodes to the same names and values. */
  lemma DecodeEncode(vars: seq<Val>)
    requires FrameVars(vars)
    ensures Decode(EncodeFrame(vars)) == Ok(vars)
  {
    var text := EncodeFrame(vars);
    assert text == PROLOGUE + (EncodeAll(vars) + EPILOGUE);
    assert text[..3] == PROLOGUE;
    AtSuffix(PROLOGUE, EncodeAll(vars) + EPILOGUE);
    ReadVarsEncoded(text, 3, vars, [], EPILOGUE);
    assert [] + vars == vars;
  }

  /**
   * A frame cut off before its epilogue raises IndexError at the end of the
   * text rather than "Expecting MSDP epilogue".
   */
  lemma MissingEpilogueIsIndexError(vars: seq<Val>)
    requires FrameVars(vars)
    ensures Decode(PROLOGUE + EncodeAll(vars)) == Err(IndexOutOfRange(3 + |EncodeAll(vars)|))
  {
    var text := PROLOGUE + EncodeAll(vars);
    assert text[..3] == PROLOGUE;
    AtSuffix(PROLOGUE, EncodeAll(vars));
    assert EncodeAll(vars) + [] == EncodeAll(vars);
    ReadVarsEncoded(text, 3, vars, [], []);
  }

  /** A dict at the top level is encoded without the frame envelope, so it does not decode. */
  lemma TopLevelTableIsNotAFrame(entries: seq<Entry>)
    ensures Decode(Encode(Table(entries), true)) == Err(PrologueExpected)
  {
    assert Encode(Table(entries), true)[0] == TABLE_OPEN;
  }
}
