/**
 * `handle_telnet_option` (lyntin/modules/msdp.py): what the client does with
 * one telnet option frame. It keeps no state between frames. Its effects
 * are written out as an outcome: the byte strings written to the socket, the
 * decode error reported to the user, the variables published as an
 * `msdp_data` event, and whether `StopSpammingException` is raised. An
 * IndexError that escapes the handler is an outcome of its own.
 *
 * The `msdp_reportable_variables` hook is a parameter: given the value of a
 * `REPORTABLE_VARIABLES` variable it answers `None` (the hook chain returned
 * None) or the list of values left in `requested_vars`.
 */
module MsdpHandler {
  import opened Common
  import opened MsdpCodec
  import opened MsdpDecode
  import opened MsdpRoundTrip

  /** The bytes of an ASCII string. */
  function Ascii(s: string): (r: seq<Byte>)
    requires forall k | 0 <= k < |s| :: s[k] as int < 256
    ensures |r| == |s| && forall k | 0 <= k < |s| :: r[k] == s[k] as int
  {
    seq(|s|, k requires 0 <= k < |s| => s[k] as int)
  }

  const LIST: seq<Byte> := Ascii("LIST")
  const COMMANDS: seq<Byte> := Ascii("COMMANDS")
  const REPORT: seq<Byte> := Ascii("REPORT")
  const REPORTABLE_VARIABLES: seq<Byte> := Ascii("REPORTABLE_VARIABLES")

  /** The answer of the `msdp_reportable_variables` hook chain for a list of supported variables. */
  type Hook = Val -> Option<seq<Val>>

  datatype Outcome =
    | Handled(writes: seq<seq<Byte>>, reported: Option<DecodeError>, published: Option<seq<Val>>, stop: bool)
    | Crashed(pos: nat)   // IndexError from `data[pos]` or inside `decode_msdp`

  /** The handshake answer to `IAC WILL MSDP`: `IAC DO MSDP`. */
  const DO_MSDP: seq<Byte> := [IAC, DO, MSDP]

  /** `encode_msdp([MSDPVar('LIST', 'COMMANDS')])`. */
  function ListCommandsFrame(): seq<Byte>
  {
    EncodeFrame([Var(LIST, Scalar(COMMANDS))])
  }

  /** `encode_msdp([MSDPVar('LIST', 'REPORTABLE_VARIABLES')])`. */
  function ListReportableFrame(): seq<Byte>
  {
    EncodeFrame([Var(LIST, Scalar(REPORTABLE_VARIABLES))])
  }

  /** `''.join(encode_msdp([MSDPVar("REPORT", v)]) for v in requested)`. */
  function ReportFrames(requested: seq<Val>): seq<Byte>
  {
    if requested == [] then []
    else EncodeFrame([Var(REPORT, requested[0])]) + ReportFrames(requested[1..])
  }

  /** `p` occurs in `s` as a contiguous run: Python's substring test `p in s`. */
  predicate IsInfix(p: seq<Byte>, s: seq<Byte>)
    decreases |s|
  {
    |p| <= |s| && (s[..|p|] == p || IsInfix(p, s[1..]))
  }

  /** `'REPORT' in value`: a substring of a string, an element of a list, a key of a dict, a field of an `MSDPVar`. */
  predicate ContainsReport(v: Val)
  {
    match v
    case Scalar(s) => IsInfix(REPORT, s)
    case Arr(items) => Scalar(REPORT) in items
    case Table(entries) => Lookup(entries, REPORT).Some?
    case Var(name, value) => name == REPORT || value == Scalar(REPORT)
  }

  /** A variable at which the loop over the decoded variables breaks. */
  predicate Breaks(v: Val, hook: Hook)
  {
    v.Var? && ((v.name == COMMANDS && ContainsReport(v.value))
               || (v.name == REPORTABLE_VARIABLES && hook(v.value).None?))
  }

  /** The writes of the `for var in vars` loop of `handle_telnet_option`. */
  function PlanVars(vars: seq<Val>, hook: Hook): seq<seq<Byte>>
  {
    if vars == [] then []
    else
      var v := vars[0];
      if v.Var? && v.name == COMMANDS then
        if ContainsReport(v.value) then [ListReportableFrame()] else PlanVars(vars[1..], hook)
      else if v.Var? && v.name == REPORTABLE_VARIABLES then
        match hook(v.value)
        case None => []
        case Some(requested) =>
          (if requested == [] then [] else [ReportFrames(requested)]) + PlanVars(vars[1..], hook)
      else PlanVars(vars[1..], hook)
  }

  /** `handle_telnet_option(args)` for the frame `data`. */
  function PlanFrame(data: seq<Byte>, hook: Hook): Outcome
  {
    if |data| < 3 then Crashed(2)
    else if data[2] != MSDP then Handled([], None, None, false)
    else if data[1] == WILL then Handled([DO_MSDP, ListCommandsFrame()], None, None, true)
    else if data[1] == SB then
      match Decode(data)
      case Err(e) =>
        if e.IsValueError() then Handled([], Some(e), None, false) else Crashed(e.pos)
      case Ok(vars) => Handled(PlanVars(vars, hook), None, Some(vars), true)
    else Handled([], None, None, true)
  }

  // ---------------------------------------------------------------------
  // The source's loop.

  /** `handle_telnet_option`. */
  method HandleTelnetOption(data: seq<Byte>, hook: Hook) returns (out: Outcome)
    ensures out == PlanFrame(data, hook)
  {
    if |data| < 3 {
      return Crashed(2);
    }
    if data[2] != MSDP {
      return Handled([], None, None, false);
    }
    if data[1] == WILL {
      return Handled([DO_MSDP, ListCommandsFrame()], None, None, true);
    }
    if data[1] != SB {
      return Handled([], None, None, true);
    }
    var decoded := DecodeMsdp(data);
    if decoded.Err? {
      if decoded.error.IsValueError() {
        return Handled([], Some(decoded.error), None, false);
      }
      return Crashed(decoded.error.pos);
    }
    var writes := RequestReports(decoded.value, hook);
    return Handled(writes, None, Some(decoded.value), true);
  }

  /** The `for var in vars` loop of `handle_telnet_option`, with its `break`s. */
  method RequestReports(vars: seq<Val>, hook: Hook) returns (writes: seq<seq<Byte>>)
    ensures writes == PlanVars(vars, hook)
  {
    writes := [];
    var n := 0;
    while n < |vars|
      invariant n <= |vars|
      invariant writes + PlanVars(vars[n..], hook) == PlanVars(vars, hook)
    {
      var v := vars[n];
      assert vars[n..] == [v] + vars[n + 1..];
      if v.Var? && v.name == COMMANDS {
        if ContainsReport(v.value) {
          writes := writes + [ListReportableFrame()];
          break;
        }
      } else if v.Var? && v.name == REPORTABLE_VARIABLES {
        var answer := hook(v.value);
        if answer.None? {
          assert writes == PlanVars(vars, hook);
          break;
        }
        if answer.value != [] {
          writes := writes + [ReportFrames(answer.value)];
        }
      }
      n := n + 1;
    }
  }

  // ---------------------------------------------------------------------
  // What the handler promises.

  /** A frame shorter than three bytes raises IndexError at `data[2]`; one for another option is ignored. */
  lemma OtherOptionIgnored(data: seq<Byte>, hook: Hook)
    ensures |data| < 3 <==> PlanFrame(data, hook) == Crashed(2)
    ensures |data| >= 3 && data[2] != MSDP ==> PlanFrame(data, hook) == Handled([], None, None, false)
  {
    DecodeContract(data);
  }

  /** `IAC WILL MSDP` is answered by `IAC DO MSDP` and a request for the command list, which decodes to exactly that request. */
  lemma WillIsAnswered(data: seq<Byte>, hook: Hook)
    requires |data| >= 3 && data[1] == WILL && data[2] == MSDP
    ensures PlanFrame(data, hook).Handled? && PlanFrame(data, hook).stop
    ensures PlanFrame(data, hook).writes == [[IAC, DO, MSDP], ListCommandsFrame()]
    ensures Decode(PlanFrame(data, hook).writes[1]) == Ok([Var(LIST, Scalar(COMMANDS))])
  {
    PlainNameDecodes(LIST, COMMANDS);
  }

  /** A request for one plain-named variable with a plain scalar value decodes back to itself. */
  lemma PlainNameDecodes(name: seq<Byte>, value: seq<Byte>)
    requires forall k | 0 <= k < |name| :: name[k] > ARRAY_CLOSE && name[k] < IAC
    requires forall k | 0 <= k < |value| :: value[k] > ARRAY_CLOSE && value[k] < IAC
    ensures Decode(EncodeFrame([Var(name, Scalar(value))])) == Ok([Var(name, Scalar(value))])
  {
    var vars := [Var(name, Scalar(value))];
    forall v | v in vars ensures v.Var? && NoVal(v.name) && Nested(v.value) {
    }
    DecodeEncode(vars);
  }

  /**
   * An SB frame that `decode_msdp` rejects with a ValueError is reported and
   * nothing is written or published; an IndexError escapes the handler.
   */
  lemma DecodeFailure(data: seq<Byte>, hook: Hook)
    requires |data| >= 3 && data[1] == SB && data[2] == MSDP && Decode(data).Err?
    ensures Decode(data).error.IsValueError() ==>
      PlanFrame(data, hook) == Handled([], Some(Decode(data).error), None, false)
    ensures !Decode(data).error.IsValueError() ==>
      PlanFrame(data, hook) == Crashed(Decode(data).error.pos) && Decode(data).error.pos >= |data|
  {
    DecodeContract(data);
  }

  /** Every frame that decodes is published as `msdp_data`, and the handler stops the hook chain. */
  lemma DecodedFramePublished(data: seq<Byte>, hook: Hook)
    requires |data| >= 3 && data[1] == SB && data[2] == MSDP && Decode(data).Ok?
    ensures PlanFrame(data, hook).Handled? && PlanFrame(data, hook).stop
    ensures PlanFrame(data, hook).published == Some(Decode(data).value)
    ensures PlanFrame(data, hook).reported == None
    ensures |PlanFrame(data, hook).writes| <= |Decode(data).value|
  {
    PlanVarsBound(Decode(data).value, hook);
  }

  /** A frame of variables cut off before its epilogue crashes the handler with IndexError. */
  lemma TruncatedFrameCrashes(vars: seq<Val>, hook: Hook)
    requires FrameVars(vars)
    ensures PlanFrame(PROLOGUE + EncodeAll(vars), hook) == Crashed(3 + |EncodeAll(vars)|)
  {
    MissingEpilogueIsIndexError(vars);
  }

  /** At most one write per variable. */
  lemma {:induction false} PlanVarsBound(vars: seq<Val>, hook: Hook)
    ensures |PlanVars(vars, hook)| <= |vars|
  {
    if vars != [] {
      PlanVarsBound(vars[1..], hook);
    }
  }

  /** Variables before the first one that breaks the loop contribute their writes independently of what follows. */
  lemma {:induction false} PlanVarsPrefix(prefix: seq<Val>, rest: seq<Val>, hook: Hook)
    requires forall v | v in prefix :: !Breaks(v, hook)
    ensures PlanVars(prefix + rest, hook) == PlanVars(prefix, hook) + PlanVars(rest, hook)
  {
    if prefix != [] {
      assert prefix[0] in prefix;
      assert (prefix + rest)[1..] == prefix[1..] + rest;
      forall v | v in prefix[1..] ensures !Breaks(v, hook) {
        assert v in prefix;
      }
      PlanVarsPrefix(prefix[1..], rest, hook);
    } else {
      assert prefix + rest == rest;
    }
  }

  /**
   * At the first variable that breaks the loop, nothing after it is looked at:
   * a `COMMANDS` list holding `'REPORT'` asks for the reportable variables
   * once; a hook answering None writes nothing more.
   */
  lemma PlanVarsBreak(prefix: seq<Val>, v: Val, rest: seq<Val>, hook: Hook)
    requires forall x | x in prefix :: !Breaks(x, hook)
    requires Breaks(v, hook)
    ensures v.name == COMMANDS ==>
      PlanVars(prefix + [v] + rest, hook) == PlanVars(prefix, hook) + [ListReportableFrame()]
    ensures v.name != COMMANDS ==> PlanVars(prefix + [v] + rest, hook) == PlanVars(prefix, hook)
  {
    assert prefix + [v] + rest == prefix + ([v] + rest);
    PlanVarsPrefix(prefix, [v] + rest, hook);
    assert ([v] + rest)[0] == v;
    if v.name != COMMANDS {
      assert PlanVars(prefix, hook) + [] == PlanVars(prefix, hook);
    }
  }

  /** A variable that does not break the loop writes one frame of REPORT requests when the hook asks for some, else nothing. */
  lemma PlanVarsStep(v: Val, rest: seq<Val>, hook: Hook)
    requires !Breaks(v, hook)
    ensures v.Var? && v.name == REPORTABLE_VARIABLES && hook(v.value).value != [] ==>
      PlanVars([v] + rest, hook) == [ReportFrames(hook(v.value).value)] + PlanVars(rest, hook)
    ensures !(v.Var? && v.name == REPORTABLE_VARIABLES && hook(v.value).value != []) ==>
      PlanVars([v] + rest, hook) == PlanVars(rest, hook)
  {
    assert ([v] + rest)[0] == v && ([v] + rest)[1..] == rest;
    if v.Var? && v.name == REPORTABLE_VARIABLES && hook(v.value).value == [] {
      assert [] + PlanVars(rest, hook) == PlanVars(rest, hook);
    }
  }

  /** The REPORT requests for `a + b` are those for `a`, then those for `b`. */
  lemma {:induction false} ReportFramesAppend(a: seq<Val>, b: seq<Val>)
    ensures ReportFrames(a + b) == ReportFrames(a) + ReportFrames(b)
  {
    if a == [] {
      assert a + b == b;
    } else {
      assert (a + b)[0] == a[0] && (a + b)[1..] == a[1..] + b;
      ReportFramesAppend(a[1..], b);
    }
  }

  /** The REPORT request for one value is a frame that decodes to `MSDPVar('REPORT', value)`. */
  lemma ReportFrameDecodes(value: Val)
    requires Nested(value)
    ensures Decode(ReportFrames([value])) == Ok([Var(REPORT, value)])
  {
    var vars := [Var(REPORT, value)];
    assert [value][1..] == [];
    assert ReportFrames([value]) == EncodeFrame(vars) + [] == EncodeFrame(vars);
    forall v | v in vars ensures v.Var? && NoVal(v.name) && Nested(v.value) {
    }
    DecodeEncode(vars);
  }

  /** `p` sits in `s` at `k`. */
  predicate SliceAt(p: seq<Byte>, s: seq<Byte>, k: int)
  {
    0 <= k && k + |p| <= |s| && s[k..k + |p|] == p
  }

  /** `IsInfix` is Python's substring test: `p` equals some slice of `s`. */
  lemma {:induction false} IsInfixMeans(p: seq<Byte>, s: seq<Byte>)
    decreases |s|
    ensures IsInfix(p, s) <==> exists k :: SliceAt(p, s, k)
  {
    if |p| <= |s| {
      if s[..|p|] == p {
        assert SliceAt(p, s, 0);
      } else {
        IsInfixMeans(p, s[1..]);
        if exists k :: SliceAt(p, s, k) {
          var k :| SliceAt(p, s, k);
          assert k != 0;
          assert s[1..][k - 1..k - 1 + |p|] == s[k..k + |p|];
          assert SliceAt(p, s[1..], k - 1);
        }
        if IsInfix(p, s[1..]) {
          var k :| SliceAt(p, s[1..], k);
          assert s[k + 1..k + 1 + |p|] == s[1..][k..k + |p|];
          assert SliceAt(p, s, k + 1);
        }
      }
    }
  }
}
