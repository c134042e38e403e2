/**
 * The MSDP value tree and its encoder (lyntin/modules/msdp.py, encode_msdp).
 *
 * MSDP, the MUD Server Data Protocol, is telnet option 69. Its frames travel
 * inside telnet subnegotiation framing `IAC SB <option> ... IAC SE` (RFC 855),
 * and an IAC byte inside the data is sent twice (RFC 854, "TELNET COMMAND
 * STRUCTURE").
 */
module MsdpCodec {
  import opened Common

  type Byte = b: int | 0 <= b < 256

  // Telnet command bytes (RFC 854).
  const IAC: Byte := 255
  const DO: Byte := 253
  const WILL: Byte := 251
  const SB: Byte := 250
  const SE: Byte := 240

  // MSDP option code and marker bytes.
  const MSDP: Byte := 69
  const VAR: Byte := 1
  const VAL: Byte := 2
  const TABLE_OPEN: Byte := 3
  const TABLE_CLOSE: Byte := 4
  const ARRAY_OPEN: Byte := 5
  const ARRAY_CLOSE: Byte := 6

  const PROLOGUE: seq<Byte> := [IAC, SB, MSDP]
  const EPILOGUE: seq<Byte> := [IAC, SE]

  /**
   * A value the encoder accepts: a scalar string, a list, a dict (an ordered
   * association list here, since the wire keeps an order), or an `MSDPVar`
   * name/value pair.
   */
  datatype Val =
    | Scalar(bytes: seq<Byte>)
    | Arr(items: seq<Val>)
    | Table(entries: seq<Entry>)
    | Var(name: seq<Byte>, value: Val)

  datatype Entry = Entry(key: seq<Byte>, value: Val)

  /** The scalar rule: every IAC byte is doubled. */
  function Escape(s: seq<Byte>): (r: seq<Byte>)
    ensures |r| >= |s|
    ensures IAC !in s ==> r == s
  {
    if s == [] then []
    else (if s[0] == IAC then [IAC, IAC] else [s[0]]) + Escape(s[1..])
  }

  /** Python's `replace(IAC * 2, IAC)`: leftmost, non-overlapping pairs collapse to one IAC. */
  function Collapse(s: seq<Byte>): (r: seq<Byte>)
    ensures |r| <= |s|
  {
    if |s| >= 2 && s[0] == IAC && s[1] == IAC then [IAC] + Collapse(s[2..])
    else if s == [] then []
    else [s[0]] + Collapse(s[1..])
  }

  lemma EscapeCons(b: Byte, s: seq<Byte>)
    ensures Escape([b] + s) == (if b == IAC then [IAC, IAC] else [b]) + Escape(s)
  {
    assert ([b] + s)[1..] == s;
  }

  lemma CollapseCons(b: Byte, s: seq<Byte>)
    ensures b != IAC ==> Collapse([b] + s) == [b] + Collapse(s)
    ensures b == IAC ==> Collapse([IAC, IAC] + s) == [IAC] + Collapse(s)
  {
    assert ([b] + s)[1..] == s;
    assert ([IAC, IAC] + s)[2..] == s;
  }

  /** Collapsing undoes escaping, for every byte string. */
  lemma {:induction false} CollapseEscape(s: seq<Byte>)
    ensures Collapse(Escape(s)) == s
  {
    if s != [] {
      CollapseEscape(s[1..]);
      if s[0] == IAC {
        assert Escape(s) == [IAC, IAC] + Escape(s[1..]);
        assert Escape(s)[2..] == Escape(s[1..]);
      } else {
        assert Escape(s) == [s[0]] + Escape(s[1..]);
        assert Escape(s)[1..] == Escape(s[1..]);
      }
    }
  }

  /**
   * `encode_msdp(data, toplevel)`. A list at the top level becomes a whole
   * subnegotiation frame whose elements are encoded back to back; anywhere
   * else a list is an MSDP array. A scalar reads back through the decoder's
   * un-doubling, and every other value is framed by its own marker bytes.
   */
  function Encode(v: Val, toplevel: bool): (r: seq<Byte>)
    decreases v
    ensures v.Scalar? ==> Collapse(r) == v.bytes
    ensures v.Table? ==> |r| >= 2 && r[0] == TABLE_OPEN && r[|r| - 1] == TABLE_CLOSE
    ensures v.Arr? && toplevel ==> |r| >= 5 && r[..3] == PROLOGUE && r[|r| - 2..] == EPILOGUE
    ensures v.Arr? && !toplevel ==> |r| >= 2 && r[0] == ARRAY_OPEN && r[|r| - 1] == ARRAY_CLOSE
    ensures v.Var? ==> |r| >= |v.name| + 2 && r[0] == VAR && r[1..|v.name| + 1] == v.name && r[|v.name| + 1] == VAL
  {
    match v
    case Table(entries) => [TABLE_OPEN] + EncodeEntries(entries) + [TABLE_CLOSE]
    case Arr(items) =>
      if toplevel then PROLOGUE + EncodeAll(items) + EPILOGUE
      else [ARRAY_OPEN] + EncodeItems(items) + [ARRAY_CLOSE]
    case Var(name, value) => [VAR] + name + [VAL] + Encode(value, false)
    case Scalar(s) =>
      CollapseEscape(s);
      Escape(s)
  }

  /** Dict entries: `VAR key VAL value` each; keys are not escaped. */
  function EncodeEntries(entries: seq<Entry>): seq<Byte>
    decreases entries
  {
    if entries == [] then []
    else
      assert entries[0] in entries;
      [VAR] + entries[0].key + [VAL] + Encode(entries[0].value, false) + EncodeEntries(entries[1..])
  }

  /** Nested list elements: `VAL element` each. */
  function EncodeItems(items: seq<Val>): seq<Byte>
    decreases items
  {
    if items == [] then []
    else [VAL] + Encode(items[0], false) + EncodeItems(items[1..])
  }

  /** Top-level list elements, encoded back to back (they should be `MSDPVar`s). */
  function EncodeAll(items: seq<Val>): seq<Byte>
    decreases items
  {
    if items == [] then []
    else Encode(items[0], false) + EncodeAll(items[1..])
  }

  /** The frame the client sends for a list of variables: `encode_msdp([MSDPVar(name, value), ...])`. */
  function EncodeFrame(vars: seq<Val>): seq<Byte>
  {
    Encode(Arr(vars), true)
  }

  // ---------------------------------------------------------------------
  // Dict semantics of a decoded table: `result[k] = v`.

  /** The value a dict lookup `d[key]` finds, if any. */
  function Lookup(entries: seq<Entry>, key: seq<Byte>): Option<Val>
  {
    if entries == [] then None
    else if entries[0].key == key then Some(entries[0].value)
    else Lookup(entries[1..], key)
  }

  /** Assignment `d[key] = value` on a dict kept in insertion order. */
  function Put(entries: seq<Entry>, key: seq<Byte>, value: Val): seq<Entry>
  {
    if entries == [] then [Entry(key, value)]
    else if entries[0].key == key then [Entry(key, value)] + entries[1..]
    else [entries[0]] + Put(entries[1..], key, value)
  }

  /** `Put` has the dict assignment law: the key now finds the new value, every other key what it found before. */
  lemma {:induction false} PutLookup(entries: seq<Entry>, key: seq<Byte>, value: Val, other: seq<Byte>)
    ensures Lookup(Put(entries, key, value), key) == Some(value)
    ensures other != key ==> Lookup(Put(entries, key, value), other) == Lookup(entries, other)
  {
    if entries != [] && entries[0].key != key {
      PutLookup(entries[1..], key, value, other);
    }
  }

  /** A key the dict does not hold yet is appended at the end. */
  lemma {:induction false} PutNewKey(entries: seq<Entry>, key: seq<Byte>, value: Val)
    requires forall e | e in entries :: e.key != key
    ensures Put(entries, key, value) == entries + [Entry(key, value)]
  {
    if entries != [] {
      assert entries[0] in entries;
      PutNewKey(entries[1..], key, value);
      assert entries == [entries[0]] + entries[1..];
    }
  }

  /** The keys of a dict, in order. */
  function KeysOf(entries: seq<Entry>): (ks: seq<seq<Byte>>)
    ensures |ks| == |entries|
  {
    if entries == [] then [] else [entries[0].key] + KeysOf(entries[1..])
  }

  lemma {:induction false} KeysOfIndex(entries: seq<Entry>, k: nat)
    requires k < |entries|
    ensures KeysOf(entries)[k] == entries[k].key
  {
    if k > 0 {
      KeysOfIndex(entries[1..], k - 1);
    }
  }

  /** No key occurs twice, as in a dict. */
  predicate DistinctKeys(entries: seq<Entry>)
  {
    var ks := KeysOf(entries);
    forall i, j | 0 <= i < j < |ks| :: ks[i] != ks[j]
  }
}
