/**
 * The MSDP decoder (lyntin/modules/msdp.py, `_read_msdp_*` and `decode_msdp`).
 *
 * Each reader is given twice: a recursive function that is its specification,
 * and a method with the source's `while` loops over a cursor, proved to compute
 * that function. The source indexes `text[i]` without a bound check in four
 * places; there Python raises IndexError, which the model keeps apart from the
 * ValueErrors the readers raise on purpose.
 */
module MsdpDecode {
  import opened Common
  import opened MsdpCodec

  datatype DecodeError =
    | PrologueExpected             // ValueError("Expecting MSDP prologue")
    | EpilogueExpected(pos: nat)   // ValueError("Expecting MSDP epilogue"), raised with the loop stopped at `pos`
    | VarExpected(pos: nat)        // ValueError("Expecting MSDP_VAR in position %d")
    | ValExpected(pos: nat)        // ValueError("Expecting MSDP_VAL in position %d")
    | TableCloseExpected(pos: nat) // ValueError("Expecting MSDP_TABLE_CLOSE in position %d")
    | ArrayCloseExpected(pos: nat) // ValueError("Expecting MSDP_ARRAY_CLOSE in position %d")
    | IndexOutOfRange(pos: nat)    // IndexError from an unguarded `text[pos]`
  {
    predicate IsValueError() { !IndexOutOfRange? }
  }

  /** Every error describes the text: the prologue is missing, or at the position it names the text is as the message says. */
  predicate Accurate(text: seq<Byte>, e: DecodeError)
  {
    match e
    case VarExpected(p) => p < |text| && text[p] != VAR && text[p] != TABLE_CLOSE
    case ValExpected(p) => p < |text| && text[p] != VAL && text[p] != ARRAY_CLOSE
    case TableCloseExpected(p) => p == |text|
    case ArrayCloseExpected(p) => p == |text|
    case IndexOutOfRange(p) => p >= |text|
    case PrologueExpected => !(|text| >= 3 && text[..3] == PROLOGUE)
    case EpilogueExpected(p) => p < |text| && text[p] != VAR && text[p..] != EPILOGUE
  }

  /**
   * Where the scalar scan started at `i` stops: at the first marker byte, or at
   * an IAC that is not doubled, or at the end of the text.
   */
  function ScalarEnd(text: seq<Byte>, i: nat): (j: nat)
    requires i <= |text|
    decreases |text| - i
    ensures i <= j <= |text|
  {
    if i == |text| || text[i] <= ARRAY_CLOSE then i
    else if text[i] == IAC then
      if i + 1 < |text| && text[i + 1] == IAC then ScalarEnd(text, i + 2) else i
    else ScalarEnd(text, i + 1)
  }

  /** The key scan of a table entry: the first VAL at or after `i`; none means IndexError at the end. */
  function KeyEnd(text: seq<Byte>, i: nat): (r: Option<nat>)
    requires i <= |text|
    decreases |text| - i
    ensures r.Some? ==> i <= r.value < |text|
  {
    if i == |text| then None
    else if text[i] == VAL then Some(i)
    else KeyEnd(text, i + 1)
  }

  /** The name scan of a variable: the first VAL at or after `i`, or the end of the text. */
  function NameEnd(text: seq<Byte>, i: nat): (j: nat)
    requires i <= |text|
    decreases |text| - i
    ensures i <= j <= |text|
  {
    if i == |text| || text[i] == VAL then i else NameEnd(text, i + 1)
  }

  /** `_read_msdp_val(text, i)`: a value and the cursor just past it. */
  function ReadVal(text: seq<Byte>, i: nat): (r: Result<(Val, nat), DecodeError>)
    decreases |text| - i, 1
    ensures r.Ok? ==> i <= r.value.1 <= |text|
  {
    if i >= |text| then Err(IndexOutOfRange(i))
    else if text[i] == TABLE_OPEN then
      match ReadTable(text, i + 1, [])
      case Err(e) => Err(e)
      case Ok((entries, j)) =>
        if j >= |text| || text[j] != TABLE_CLOSE then Err(TableCloseExpected(j))
        else Ok((Table(entries), j + 1))
    else if text[i] == ARRAY_OPEN then
      match ReadArray(text, i + 1, [])
      case Err(e) => Err(e)
      case Ok((items, j)) =>
        if j >= |text| || text[j] != ARRAY_CLOSE then Err(ArrayCloseExpected(j))
        else Ok((Arr(items), j + 1))
    else
      var j := ScalarEnd(text, i);
      Ok((Scalar(Collapse(text[i..j])), j))
  }

  /**
   * `_read_msdp_table(text, i)` continued with the entries `acc` already read:
   * `VAR key VAL value` entries until TABLE_CLOSE or the end of the text.
   */
  function ReadTable(text: seq<Byte>, i: nat, acc: seq<Entry>): (r: Result<(seq<Entry>, nat), DecodeError>)
    requires i <= |text|
    decreases |text| - i, 0
    ensures r.Ok? ==> i <= r.value.1 <= |text|
  {
    if i == |text| || text[i] == TABLE_CLOSE then Ok((acc, i))
    else if text[i] != VAR then Err(VarExpected(i))
    else
      match KeyEnd(text, i + 1)
      case None => Err(IndexOutOfRange(|text|))
      case Some(k) =>
        match ReadVal(text, k + 1)
        case Err(e) => Err(e)
        case Ok((v, j)) => ReadTable(text, j, Put(acc, text[i + 1..k], v))
  }

  /** `_read_msdp_array(text, i)` continued with the elements `acc` already read. */
  function ReadArray(text: seq<Byte>, i: nat, acc: seq<Val>): (r: Result<(seq<Val>, nat), DecodeError>)
    requires i <= |text|
    decreases |text| - i, 0
    ensures r.Ok? ==> i <= r.value.1 <= |text|
  {
    if i == |text| || text[i] == ARRAY_CLOSE then Ok((acc, i))
    else if text[i] != VAL then Err(ValExpected(i))
    else
      match ReadVal(text, i + 1)
      case Err(e) => Err(e)
      case Ok((v, j)) => ReadArray(text, j, acc + [v])
  }

  /** `_read_msdp_var(text, i)`: a name up to VAL, then a value. */
  function ReadVar(text: seq<Byte>, i: nat): (r: Result<(Val, nat), DecodeError>)
    requires i <= |text|
    ensures r.Ok? ==> i < r.value.1 <= |text|
  {
    var k := NameEnd(text, i);
    match ReadVal(text, k + 1)
    case Err(e) => Err(e)
    case Ok((v, j)) => Ok((Var(text[i..k], v), j))
  }

  /** The loop of `decode_msdp` from cursor `i`, with the variables `acc` already read. */
  function ReadVars(text: seq<Byte>, i: nat, acc: seq<Val>): Result<seq<Val>, DecodeError>
    requires i <= |text|
    decreases |text| - i
  {
    if i == |text| then Err(IndexOutOfRange(i))
    else if text[i] == VAR then
      match ReadVar(text, i + 1)
      case Err(e) => Err(e)
      case Ok((v, j)) => ReadVars(text, j, acc + [v])
    else if text[i..] == EPILOGUE then Ok(acc)
    else Err(EpilogueExpected(i))
  }

  /** `decode_msdp(text)`: the `MSDPVar`s of one subnegotiation frame. */
  function Decode(text: seq<Byte>): Result<seq<Val>, DecodeError>
  {
    if !(|text| >= 3 && text[..3] == PROLOGUE) then Err(PrologueExpected)
    else ReadVars(text, 3, [])
  }

  // ---------------------------------------------------------------------
  // What the scans and readers promise.

  /** A byte at which the scalar scan stops. */
  predicate StopsScalar(text: seq<Byte>, i: nat)
    requires i < |text|
  {
    text[i] <= ARRAY_CLOSE || (text[i] == IAC && !(i + 1 < |text| && text[i + 1] == IAC))
  }

  /** The scalar scan passes only bytes above chr(6) and stops at a marker byte, an undoubled IAC or the end. */
  lemma {:induction false} ScalarEndStops(text: seq<Byte>, i: nat)
    requires i <= |text|
    decreases |text| - i
    ensures ScalarEnd(text, i) < |text| ==> StopsScalar(text, ScalarEnd(text, i))
    ensures forall k | i <= k < ScalarEnd(text, i) :: text[k] > ARRAY_CLOSE
  {
    if i == |text| || text[i] <= ARRAY_CLOSE {
    } else if text[i] == IAC {
      if i + 1 < |text| && text[i + 1] == IAC {
        ScalarEndStops(text, i + 2);
      }
    } else {
      ScalarEndStops(text, i + 1);
    }
  }

  /**
   * The bytes the scalar scan passes over are exactly the escaping of what
   * `replace(IAC * 2, IAC)` makes of them: doubled IACs collapse to one.
   */
  lemma {:induction false} ScannedIsEscaped(text: seq<Byte>, i: nat)
    requires i <= |text|
    decreases |text| - i
    ensures Escape(Collapse(text[i..ScalarEnd(text, i)])) == text[i..ScalarEnd(text, i)]
  {
    var j := ScalarEnd(text, i);
    if i == |text| || text[i] <= ARRAY_CLOSE {
    } else if text[i] == IAC {
      if i + 1 < |text| && text[i + 1] == IAC {
        var rest := text[i + 2..j];
        ScannedIsEscaped(text, i + 2);
        assert text[i..j] == [IAC, IAC] + rest;
        CollapseCons(IAC, rest);
        EscapeCons(IAC, Collapse(rest));
      }
    } else {
      var rest := text[i + 1..j];
      ScannedIsEscaped(text, i + 1);
      assert text[i..j] == [text[i]] + rest;
      CollapseCons(text[i], rest);
      EscapeCons(text[i], Collapse(rest));
    }
  }

  /** The key scan finds the first VAL; when there is none, the inner loop indexes past the end. */
  lemma {:induction false} KeyEndFinds(text: seq<Byte>, i: nat)
    requires i <= |text|
    decreases |text| - i
    ensures KeyEnd(text, i).Some? ==> text[KeyEnd(text, i).value] == VAL
    ensures KeyEnd(text, i).Some? ==> forall k | i <= k < KeyEnd(text, i).value :: text[k] != VAL
    ensures KeyEnd(text, i).None? <==> forall k | i <= k < |text| :: text[k] != VAL
  {
    if i < |text| && text[i] != VAL {
      KeyEndFinds(text, i + 1);
    }
  }

  /** The name scan stops at the first VAL or at the end of the text. */
  lemma {:induction false} NameEndFinds(text: seq<Byte>, i: nat)
    requires i <= |text|
    decreases |text| - i
    ensures NameEnd(text, i) < |text| ==> text[NameEnd(text, i)] == VAL
    ensures forall k | i <= k < NameEnd(text, i) :: text[k] != VAL
  {
    if i < |text| && text[i] != VAL {
      NameEndFinds(text, i + 1);
    }
  }

  /**
   * At a byte that opens neither a table nor an array `_read_msdp_val` always
   * reads a scalar, and escaping that scalar gives back the bytes it covered.
   */
  lemma ScalarReadsBack(text: seq<Byte>, i: nat)
    requires i < |text| && text[i] != TABLE_OPEN && text[i] != ARRAY_OPEN
    ensures ReadVal(text, i).Ok? && ReadVal(text, i).value.0.Scalar?
    ensures Escape(ReadVal(text, i).value.0.bytes) == text[i..ReadVal(text, i).value.1]
  {
    var j := ScalarEnd(text, i);
    assert ReadVal(text, i) == Ok((Scalar(Collapse(text[i..j])), j));
    ScannedIsEscaped(text, i);
  }

  /**
   * `_read_msdp_val` raises only errors that describe the text, and a table
   * or array it returns ends just past its closing byte.
   */
  lemma {:induction false} ReadValAccurate(text: seq<Byte>, i: nat)
    decreases |text| - i, 1
    ensures ReadVal(text, i).Err? ==> Accurate(text, ReadVal(text, i).error)
    ensures ReadVal(text, i).Ok? && text[i] == TABLE_OPEN ==>
      ReadVal(text, i).value.0.Table? && i + 2 <= ReadVal(text, i).value.1 && text[ReadVal(text, i).value.1 - 1] == TABLE_CLOSE
    ensures ReadVal(text, i).Ok? && text[i] == ARRAY_OPEN ==>
      ReadVal(text, i).value.0.Arr? && i + 2 <= ReadVal(text, i).value.1 && text[ReadVal(text, i).value.1 - 1] == ARRAY_CLOSE
  {
    if i < |text| {
      if text[i] == TABLE_OPEN {
        ReadTableAccurate(text, i + 1, []);
      } else if text[i] == ARRAY_OPEN {
        ReadArrayAccurate(text, i + 1, []);
      }
    }
  }

  /** `_read_msdp_table` raises only errors that describe the text, and stops at TABLE_CLOSE or the end. */
  lemma {:induction false} ReadTableAccurate(text: seq<Byte>, i: nat, acc: seq<Entry>)
    requires i <= |text|
    decreases |text| - i, 0
    ensures ReadTable(text, i, acc).Err? ==> Accurate(text, ReadTable(text, i, acc).error)
    ensures ReadTable(text, i, acc).Ok? ==>
      var j := ReadTable(text, i, acc).value.1; j == |text| || text[j] == TABLE_CLOSE
  {
    if i < |text| && text[i] == VAR && KeyEnd(text, i + 1).Some? {
      var k := KeyEnd(text, i + 1).value;
      ReadValAccurate(text, k + 1);
      ReadTableEntry(text, i, k, acc);
      var r := ReadVal(text, k + 1);
      if r.Ok? {
        ReadTableAccurate(text, r.value.1, Put(acc, text[i + 1..k], r.value.0));
      }
    }
  }

  /** `_read_msdp_array` raises only errors that describe the text, and stops at ARRAY_CLOSE or the end. */
  lemma {:induction false} ReadArrayAccurate(text: seq<Byte>, i: nat, acc: seq<Val>)
    requires i <= |text|
    decreases |text| - i, 0
    ensures ReadArray(text, i, acc).Err? ==> Accurate(text, ReadArray(text, i, acc).error)
    ensures ReadArray(text, i, acc).Ok? ==>
      var j := ReadArray(text, i, acc).value.1; j == |text| || text[j] == ARRAY_CLOSE
  {
    if i < |text| && text[i] == VAL {
      ReadValAccurate(text, i + 1);
      match ReadVal(text, i + 1)
      case Err(_) =>
      case Ok((v, j)) => ReadArrayAccurate(text, j, acc + [v]);
    }
  }

  /** A variable read fails only with an accurate error. */
  lemma ReadVarAccurate(text: seq<Byte>, i: nat)
    requires i <= |text|
    ensures ReadVar(text, i).Err? ==> Accurate(text, ReadVar(text, i).error)
  {
    ReadValAccurate(text, NameEnd(text, i) + 1);
  }

  /** The loop of `decode_msdp` reads only `MSDPVar`s, ends only at `IAC SE`, and raises only accurate errors. */
  lemma {:induction false} ReadVarsAccurate(text: seq<Byte>, i: nat, acc: seq<Val>)
    requires i <= |text|
    requires forall v | v in acc :: v.Var?
    decreases |text| - i
    ensures ReadVars(text, i, acc).Err? ==> Accurate(text, ReadVars(text, i, acc).error)
    ensures ReadVars(text, i, acc).Ok? ==> |text| >= i + 2 && text[|text| - 2..] == EPILOGUE
    ensures ReadVars(text, i, acc).Ok? ==> forall v | v in ReadVars(text, i, acc).value :: v.Var?
  {
    if i == |text| {
    } else if text[i] == VAR {
      var r := ReadVar(text, i + 1);
      if r.Err? {
        ReadVarAccurate(text, i + 1);
        assert ReadVars(text, i, acc) == Err(r.error);
      } else {
        var v, j := r.value.0, r.value.1;
        assert v.Var?;
        ReadVarsAccurate(text, j, acc + [v]);
        assert ReadVars(text, i, acc) == ReadVars(text, j, acc + [v]);
      }
    } else if text[i..] == EPILOGUE {
      assert text[|text| - 2..] == text[i..];
    } else {
      assert ReadVars(text, i, acc) == Err(EpilogueExpected(i));
    }
  }

  /**
   * `decode_msdp`: a text without the prologue raises "Expecting MSDP
   * prologue"; a decoded frame is enveloped in `IAC SB MSDP ... IAC SE` and
   * holds only `MSDPVar`s; every error describes the text.
   */
  lemma DecodeContract(text: seq<Byte>)
    ensures !(|text| >= 3 && text[..3] == PROLOGUE) ==> Decode(text) == Err(PrologueExpected)
    ensures Decode(text).Ok? ==> |text| >= 5 && text[..3] == PROLOGUE && text[|text| - 2..] == EPILOGUE
    ensures Decode(text).Ok? ==> forall v | v in Decode(text).value :: v.Var?
    ensures Decode(text).Err? ==> Accurate(text, Decode(text).error)
  {
    if |text| >= 3 && text[..3] == PROLOGUE {
      ReadVarsAccurate(text, 3, []);
    }
  }

  // ---------------------------------------------------------------------
  // The source's loops.

  /** `_read_msdp_val`, with the scalar scan as a loop. */
  method ReadMsdpVal(text: seq<Byte>, i0: nat) returns (r: Result<(Val, nat), DecodeError>)
    decreases |text| - i0, 2
    ensures r == ReadVal(text, i0)
  {
    var i := i0;
    if i >= |text| {
      return Err(IndexOutOfRange(i));
    }
    if text[i] == TABLE_OPEN {
      var t := ReadMsdpTable(text, i + 1);
      if t.Err? {
        return Err(t.error);
      }
      var (entries, j) := t.value;
      if j >= |text| || text[j] != TABLE_CLOSE {
        return Err(TableCloseExpected(j));
      }
      return Ok((Table(entries), j + 1));
    } else if text[i] == ARRAY_OPEN {
      var a := ReadMsdpArray(text, i + 1);
      if a.Err? {
        return Err(a.error);
      }
      var (items, j) := a.value;
      if j >= |text| || text[j] != ARRAY_CLOSE {
        return Err(ArrayCloseExpected(j));
      }
      return Ok((Arr(items), j + 1));
    }
    var j := ScanScalar(text, i);
    return Ok((Scalar(Collapse(text[i..j])), j));
  }

  /** The scalar scan of `_read_msdp_val`: its cursor stops at the byte that ends the scalar. */
  method ScanScalar(text: seq<Byte>, start: nat) returns (i: nat)
    requires start <= |text|
    ensures i == ScalarEnd(text, start)
  {
    i := start;
    while i < |text|
      invariant start <= i <= |text|
      invariant ScalarEnd(text, i) == ScalarEnd(text, start)
      decreases |text| - i
    {
      if text[i] <= ARRAY_CLOSE {
        break;
      }
      if text[i] == IAC {
        if |text| > i + 1 && text[i + 1] == IAC {
          i := i + 1;  // skip escaped IAC
        } else {
          break;
        }
      }
      i := i + 1;
    }
  }

  /** `_read_msdp_table`. */
  method ReadMsdpTable(text: seq<Byte>, i0: nat) returns (r: Result<(seq<Entry>, nat), DecodeError>)
    requires i0 <= |text|
    decreases |text| - i0, 1
    ensures r == ReadTable(text, i0, [])
  {
    var result: seq<Entry> := [];
    var i := i0;
    while i < |text| && text[i] != TABLE_CLOSE
      invariant i0 <= i <= |text|
      invariant ReadTable(text, i, result) == ReadTable(text, i0, [])
      decreases |text| - i
    {
      if text[i] != VAR {
        return Err(VarExpected(i));
      }
      var e := ReadMsdpEntry(text, i, result);
      if e.Err? {
        return Err(e.error);
      }
      var (key, v, j) := e.value;
      result := Put(result, key, v);
      i := j;
    }
    return Ok((result, i));
  }

  /** One pass of the loop of `_read_msdp_table`: `VAR key VAL value`, the key assigned into `acc`. */
  method ReadMsdpEntry(text: seq<Byte>, i0: nat, ghost acc: seq<Entry>) returns (r: Result<(seq<Byte>, Val, nat), DecodeError>)
    requires i0 < |text| && text[i0] == VAR
    decreases |text| - i0, 0
    ensures r.Ok? ==> i0 < r.value.2 <= |text|
    ensures r.Ok? ==> ReadTable(text, i0, acc) == ReadTable(text, r.value.2, Put(acc, r.value.0, r.value.1))
    ensures r.Err? ==> ReadTable(text, i0, acc) == Err(r.error)
  {
    var i := ScanKey(text, i0 + 1);
    if i == |text| {
      return Err(IndexOutOfRange(i));  // `text[i]` past the end
    }
    ReadTableEntry(text, i0, i, acc);
    var key := text[i0 + 1..i];
    var v := ReadMsdpVal(text, i + 1);
    if v.Err? {
      return Err(v.error);
    }
    return Ok((key, v.value.0, v.value.1));
  }

  /** One `VAR key VAL value` entry of a table, once the key scan has found VAL at `k`. */
  lemma ReadTableEntry(text: seq<Byte>, i: nat, k: nat, acc: seq<Entry>)
    requires i < |text| && text[i] == VAR && KeyEnd(text, i + 1) == Some(k)
    ensures ReadTable(text, i, acc) ==
      match ReadVal(text, k + 1)
      case Err(e) => Err(e)
      case Ok((v, j)) => ReadTable(text, j, Put(acc, text[i + 1..k], v))
  {
  }

  /** The key scan of `_read_msdp_table`: the cursor stops at VAL, or at the end where `text[i]` raises. */
  method ScanKey(text: seq<Byte>, start: nat) returns (i: nat)
    requires start <= |text|
    ensures KeyEnd(text, start) == if i == |text| then None else Some(i)
  {
    i := start;
    while i < |text| && text[i] != VAL
      invariant start <= i <= |text|
      invariant KeyEnd(text, i) == KeyEnd(text, start)
      decreases |text| - i
    {
      i := i + 1;
    }
  }

  /** `_read_msdp_array`. */
  method ReadMsdpArray(text: seq<Byte>, i0: nat) returns (r: Result<(seq<Val>, nat), DecodeError>)
    requires i0 <= |text|
    decreases |text| - i0, 0
    ensures r == ReadArray(text, i0, [])
  {
    var result: seq<Val> := [];
    var i := i0;
    while i < |text| && text[i] != ARRAY_CLOSE
      invariant i0 <= i <= |text|
      invariant ReadArray(text, i, result) == ReadArray(text, i0, [])
      decreases |text| - i
    {
      if text[i] != VAL {
        return Err(ValExpected(i));
      }
      var v := ReadMsdpVal(text, i + 1);
      if v.Err? {
        return Err(v.error);
      }
      result := result + [v.value.0];
      i := v.value.1;
    }
    return Ok((result, i));
  }

  /** `_read_msdp_var`. */
  method ReadMsdpVar(text: seq<Byte>, i0: nat) returns (r: Result<(Val, nat), DecodeError>)
    requires i0 <= |text|
    ensures r == ReadVar(text, i0)
  {
    var i := i0;
    while i < |text| && text[i] != VAL
      invariant i0 <= i <= |text|
      invariant NameEnd(text, i) == NameEnd(text, i0)
      decreases |text| - i
    {
      i := i + 1;
    }
    var name := text[i0..i];
    var v := ReadMsdpVal(text, i + 1);
    if v.Err? {
      return Err(v.error);
    }
    return Ok((Var(name, v.value.0), v.value.1));
  }

  /** `decode_msdp`. */
  method DecodeMsdp(text: seq<Byte>) returns (r: Result<seq<Val>, DecodeError>)
    ensures r == Decode(text)
  {
    if !(|text| >= 3 && text[..3] == PROLOGUE) {
      return Err(PrologueExpected);
    }
    var i := 3;
    var result: seq<Val> := [];
    while true
      invariant 3 <= i <= |text|
      invariant ReadVars(text, i, result) == Decode(text)
      decreases |text| - i
    {
      if i == |text| {
        return Err(IndexOutOfRange(i));  // `text[i]` past the end
      }
      if text[i] != VAR {
        break;
      }
      var x := ReadMsdpVar(text, i + 1);
      if x.Err? {
        return Err(x.error);
      }
      result := result + [x.value.0];
      i := x.value.1;
    }
    if text[i..] != EPILOGUE {
      return Err(EpilogueExpected(i));
    }
    return Ok(result);
  }
}
