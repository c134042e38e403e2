# Lyntin actions and MSDP, modelled in Dafny

Lyntin is a MUD client. This project models two parts of it and proves properties of the model.

**MSDP support** (lyntin/modules/msdp.py). MSDP, the MUD Server Data Protocol, is telnet option 69.
- Its values are scalars, arrays, tables and named variables.
- They travel inside `IAC SB MSDP ... IAC SE` frames (RFC 855), with IAC bytes doubled (RFC 854).

The model covers:
- the encoder `encode_msdp` (`MsdpCodec`, msdp_codec.dfy);
- the decoder `decode_msdp` and its readers (`MsdpDecode`, msdp_decode.dfy). Each reader has a recursive specification function and a `while`-loop method proved equal to it;
- the round trip between the two (`MsdpRoundTrip`, msdp_roundtrip.dfy);
- the per-frame handler `handle_telnet_option` (`MsdpHandler`, msdp_handler.dfy). Its effects are returned as an `Outcome`: bytes written to the socket, an error reported, variables published, hook chain stopped, or a crash on an uncaught IndexError.

**Actions** (lyntin/modules/action.py). An action pairs a trigger pattern with a response. When a line from the MUD matches the trigger, the response runs as a command, with the captured groups bound to `%1`, `%2`, ... and the whole line bound to `%a`. Actions may fire only once (`onetime`), and they run in priority order. The model covers:
- the placeholder scanner `get_ordered_vars`, number formatting, and the Python 2 string order (`ActionText`, action_text.dfy);
- the per-session store `ActionData` (`ActionStore`, action_data.dfy). It is a class whose `actions` map its methods update in place;
- the session manager `ActionManager` (`ActionSessions`, action_manager.dfy). It maps sessions to their `ActionData` objects.

Collaborators outside these files are parameters of the model:
- the regex compiler, matcher and response expander;
- session-variable expansion, text selection, escaping and line filters;
- the `msdp_reportable_variables` hook.

Python dict iteration order is not specified. The model makes an arbitrary choice there, and every contract holds for any order.

## Model

| member | source | states |
|---|---|---|
| MsdpCodec.Encode | lyntin/modules/msdp.py:73-97 | `encode_msdp`: a scalar reads back through the decoder's un-doubling. A dict is framed by TABLE_OPEN and TABLE_CLOSE. A top-level list is framed by `IAC SB MSDP` and `IAC SE`. A nested list is framed by ARRAY_OPEN and ARRAY_CLOSE. An `MSDPVar` is VAR, its name, then VAL. Its inverse is stated by `MsdpRoundTrip.DecodeEncode` and `MsdpRoundTrip.TopLevelTableIsNotAFrame`. |
| MsdpCodec.Escape | lyntin/modules/msdp.py:96 | Escaping never shortens a scalar. A scalar without IAC goes on the wire unchanged. |
| MsdpCodec.CollapseEscape | lyntin/modules/msdp.py:96 | The reader's un-doubling (line 120) undoes the writer's IAC doubling for every byte string. |
| MsdpCodec.PutLookup | lyntin/modules/msdp.py:133 | The table reader's `result[k] = v` is a dict assignment. The key then maps to the new value, and every other key keeps its old value. |
| MsdpCodec.PutNewKey | lyntin/modules/msdp.py:133 | Assigning a key the table does not yet hold appends that entry at the end. |
| MsdpDecode.ScalarEnd | lyntin/modules/msdp.py:110-119 | The scalar scan stays within the text. |
| MsdpDecode.ReadVal | lyntin/modules/msdp.py:99-120 | A value that is read successfully ends within the text, no earlier than where it started. An empty scalar consumes nothing. |
| MsdpDecode.ReadVar | lyntin/modules/msdp.py:145-151 | A variable that is read successfully consumes at least one byte and ends within the text. |
| MsdpDecode.ScalarEndStops | lyntin/modules/msdp.py:110-119 | The scan stops only at a marker byte (<= 6) or at a lone IAC. Every byte it passes over is above the marker range. |
| MsdpDecode.ScannedIsEscaped | lyntin/modules/msdp.py:110-120 | The scanned slice is exactly the escaped form of the scalar the reader returns. |
| MsdpDecode.KeyEndFinds | lyntin/modules/msdp.py:128-131 | The key scan stops at the first VAL byte. It runs off the end (an IndexError) exactly when no VAL byte follows. |
| MsdpDecode.NameEndFinds | lyntin/modules/msdp.py:146-149 | The variable-name scan stops at the first VAL byte, or at the end of the text. |
| MsdpDecode.ScalarReadsBack | lyntin/modules/msdp.py:110-120 | Reading at any byte other than an opener always succeeds, with a scalar whose escaped form is the bytes consumed. |
| MsdpDecode.ReadValAccurate | lyntin/modules/msdp.py:99-109 | Every ValueError or IndexError the value reader raises names a position where the text is as the message says. A table or array read ends just after its close marker. |
| MsdpDecode.ReadTableAccurate | lyntin/modules/msdp.py:122-134 | Table errors are accurate. A successful table read stops at TABLE_CLOSE or at the end of the text. |
| MsdpDecode.ReadArrayAccurate | lyntin/modules/msdp.py:136-143 | Array errors are accurate. A successful array read stops at ARRAY_CLOSE or at the end of the text. |
| MsdpDecode.ReadVarAccurate | lyntin/modules/msdp.py:145-151 | A variable read fails only with an accurate error. |
| MsdpDecode.ReadVarsAccurate | lyntin/modules/msdp.py:156-162 | The variable loop either raises an accurate error, or ends on `IAC SE` having read only variables. |
| MsdpDecode.DecodeContract | lyntin/modules/msdp.py:153-163 | Text without the `IAC SB MSDP` prologue is rejected as such. An accepted frame has the prologue, ends in `IAC SE`, has at least 5 bytes and holds only variables. Every error is accurate: a prologue error means the prologue is missing, and an epilogue error names a position that holds neither VAR nor `IAC SE`. |
| MsdpDecode.ReadMsdpVal | lyntin/modules/msdp.py:99-120 | The imperative value reader returns exactly what the recursive specification returns, errors included. |
| MsdpDecode.ScanScalar | lyntin/modules/msdp.py:110-119 | The scalar scanning loop stops where the specification's scan stops. |
| MsdpDecode.ReadMsdpTable | lyntin/modules/msdp.py:122-134 | The table loop returns the specification's table and end position, or its error. |
| MsdpDecode.ReadMsdpEntry | lyntin/modules/msdp.py:125-133 | One loop iteration reads one `VAR key VAL value` entry. The rest of the table reads as if that entry had been put first. |
| MsdpDecode.ReadTableEntry | lyntin/modules/msdp.py:125-133 | Reading a table at a VAR byte whose key ends at `k` means: read the value after `k`, put it under the key, and go on. |
| MsdpDecode.ScanKey | lyntin/modules/msdp.py:129-130 | The key loop finds the first VAL byte, or reaches the end when there is none. |
| MsdpDecode.ReadMsdpArray | lyntin/modules/msdp.py:136-143 | The array loop returns the specification's items and end position, or its error. |
| MsdpDecode.ReadMsdpVar | lyntin/modules/msdp.py:145-151 | The variable reader equals its specification. |
| MsdpDecode.DecodeMsdp | lyntin/modules/msdp.py:153-163 | The imperative decoder equals the specification decoder on every input. |
| MsdpRoundTrip.EscapeKeepsNoMarkers | lyntin/modules/msdp.py:96 | Escaping a scalar without marker bytes introduces none. |
| MsdpRoundTrip.ReadValEncoded | lyntin/modules/msdp.py:99-120 | Reading the encoding of a nested value, followed by a byte that ends it, gives back the value and the position just after it. |
| MsdpRoundTrip.ReadScalarEncoded | lyntin/modules/msdp.py:110-120 | Reading an escaped scalar gives back the scalar. |
| MsdpRoundTrip.ReadTableEncoded | lyntin/modules/msdp.py:122-134 | Reading encoded entries with distinct keys appends exactly those entries to the table read so far. |
| MsdpRoundTrip.ReadArrayEncoded | lyntin/modules/msdp.py:136-143 | Reading encoded items appends exactly those items. |
| MsdpRoundTrip.ReadVarsEncoded | lyntin/modules/msdp.py:156-162 | Encoded variables followed by the epilogue read back as those variables. Without the epilogue, the read fails with IndexError at the end. |
| MsdpRoundTrip.DecodeEncode | lyntin/modules/msdp.py:73-163 | Round trip: `decode_msdp(encode_msdp(vars)) == vars` for a list of variables. This holds when names contain no VAL byte, keys are distinct and contain no VAL byte, and scalars contain no marker byte. It also requires that no `MSDPVar` is nested inside a value. |
| MsdpRoundTrip.MissingEpilogueIsIndexError | lyntin/modules/msdp.py:158-161 | A frame cut off before `IAC SE` raises IndexError at the position just past its last byte, not a ValueError. |
| MsdpRoundTrip.TopLevelTableIsNotAFrame | lyntin/modules/msdp.py:153-155 | The encoding of a top-level dict is never accepted by the decoder. |
| MsdpHandler.HandleTelnetOption | lyntin/modules/msdp.py:165-192 | The handler's effects on one frame are exactly those of the frame plan `PlanFrame`. |
| MsdpHandler.RequestReports | lyntin/modules/msdp.py:179-190 | The loop over decoded variables writes exactly the plan `PlanVars`. |
| MsdpHandler.OtherOptionIgnored | lyntin/modules/msdp.py:166-168 | A frame shorter than 3 bytes crashes with IndexError at position 2, and only such a frame does. A frame for another option is ignored without stopping the hook chain. |
| MsdpHandler.WillIsAnswered | lyntin/modules/msdp.py:170-172 | `IAC WILL MSDP` is answered with `IAC DO MSDP` and a request that decodes to `LIST COMMANDS`, and the hook chain stops. |
| MsdpHandler.PlainNameDecodes | lyntin/modules/msdp.py:172 | A one-variable request with a plain name and scalar decodes back to itself. |
| MsdpHandler.DecodeFailure | lyntin/modules/msdp.py:174-178 | A ValueError from the decoder is reported, nothing is written, and the chain is not stopped. An IndexError escapes as a crash at a position beyond the frame. |
| MsdpHandler.DecodedFramePublished | lyntin/modules/msdp.py:175-192 | A decodable frame is published as `msdp_data` and nothing is reported. At most one write is made per variable, and the chain stops. |
| MsdpHandler.TruncatedFrameCrashes | lyntin/modules/msdp.py:158-175 | A subnegotiation cut off before its epilogue crashes the handler rather than being reported. |
| MsdpHandler.PlanVarsBound | lyntin/modules/msdp.py:179-190 | The handler writes no more frames than there are variables. |
| MsdpHandler.PlanVarsPrefix | lyntin/modules/msdp.py:179-190 | Before the first `break`, each variable's writes are independent of what follows. |
| MsdpHandler.PlanVarsBreak | lyntin/modules/msdp.py:180-187 | A COMMANDS list containing REPORT writes one `LIST REPORTABLE_VARIABLES` request and ends the loop. A hook answering None ends it with no write. |
| MsdpHandler.PlanVarsStep | lyntin/modules/msdp.py:184-190 | A REPORTABLE_VARIABLES variable writes the REPORT frames for the requested values when the hook requests some, and nothing otherwise. |
| MsdpHandler.ReportFramesAppend | lyntin/modules/msdp.py:190 | The joined REPORT frames for `a + b` are those for `a` followed by those for `b`. |
| MsdpHandler.ReportFrameDecodes | lyntin/modules/msdp.py:190 | Each REPORT frame decodes to `MSDPVar('REPORT', value)`. |
| MsdpHandler.IsInfixMeans | lyntin/modules/msdp.py:181 | The `'REPORT' in var.value` test on a string is Python's substring test: the bytes equal some slice of the value. |
| ActionText.DigitRun | lyntin/modules/action.py:36 | `\d+` consumes all leading digits, greedily, and stops at the first non-digit. |
| ActionText.OrderedVars | lyntin/modules/action.py:323-341 | `get_ordered_vars`: each name returned is a non-empty string of digits. Which names it returns is fixed by `OrderedVarsPlaceholder` (a leading placeholder) and `OrderedVarsSkip` (any other leading character), together with `[]` for empty text. `OrderedVarsBound` bounds how many. |
| ActionText.OrderedVarsBound | lyntin/modules/action.py:323-341 | There is at most one placeholder per `%`, so a trigger without `%` binds no groups. |
| ActionText.OrderedVarsSkip | lyntin/modules/action.py:36 | A leading character that starts no placeholder adds no name. That is a character other than `%`, or a `%` followed by neither a digit nor `_` and a digit. The scan moves on by one character. |
| ActionText.OrderedVarsPlaceholder | lyntin/modules/action.py:36 | A placeholder `%N` or `%_N` followed by a non-digit yields `N`, and the scan resumes after it. |
| ActionText.NatToStringParses | lyntin/modules/action.py:189 | `%d` of a count is a non-empty digit string, without a leading zero, that parses back to the count. |
| ActionText.StatusLineParses | lyntin/modules/action.py:189 | The status line is the count's digits followed by `" action(s)."`, and reads back as the count. It starts with `0` only for a count of 0. |
| ActionText.Neutralize | lyntin/modules/action.py:166 | `line.replace(';', '_')` keeps the length of the line. |
| ActionText.NeutralizeMeans | lyntin/modules/action.py:166 | Each `;` becomes `_`, and every other character stays in place. |
| ActionText.LexLtIrreflexive | lyntin/modules/action.py:128 | No string sorts before itself. |
| ActionText.LexLtTotal | lyntin/modules/action.py:128 | Of two different strings, exactly one sorts first. |
| ActionText.LexLtTransitive | lyntin/modules/action.py:128 | The string order is transitive, so `listing.sort()` has a unique result. |
| ActionStore.PatternOf | lyntin/modules/action.py:67-69 | The pattern compiled is the session expansion of the trigger, or the trigger itself when the expansion is empty. It is empty only when both are. |
| ActionStore.Recompiled | lyntin/modules/action.py:79-87 | Recompiling keeps every key, trigger, response, priority and flag. Only each pattern is recomputed from the current expansion. Triggers stay filed under themselves. |
| ActionStore.RemoveSucceeds | lyntin/modules/action.py:110-117 | Removal completes exactly when every selected trigger is present and none is selected twice. Otherwise the read `self._actions[mem]` (line 114) raises KeyError at the first trigger that is absent, or that an earlier iteration already deleted. |
| ActionStore.RemoveReports | lyntin/modules/action.py:112-114 | On success, the k-th reported pair is the k-th selected trigger with its response. |
| ActionStore.RemoveLeaves | lyntin/modules/action.py:113-115 | On success, exactly the selected triggers are gone. |
| ActionStore.RemoveSelected | lyntin/modules/action.py:110-117 | `removeActions` succeeds if and only if the selection is present and distinct. It then reports `(trigger, response)` for each selected action, in order, and leaves the store minus the selection. |
| ActionStore.RemoveOnlyDeletes | lyntin/modules/action.py:110-117 | Removal, even one that raises part way, never changes a kept action, and never deletes an unselected one. |
| ActionStore.SortedKeys | lyntin/modules/action.py:127-129 | The sorted listing has each trigger exactly once, in strictly ascending Python string order. |
| ActionStore.Bindings | lyntin/modules/action.py:161-163 | The bound names are exactly the placeholder names of the trigger. |
| ActionStore.BindingsMeans | lyntin/modules/action.py:161-163 | A placeholder name binds the group of its last occurrence, `match.group(k+1)`. |
| ActionStore.FirstCrash | lyntin/modules/action.py:147-163 | The first action in the snapshot whose match has fewer groups than placeholders. No earlier action crashes. |
| ActionStore.RunPassCommands | lyntin/modules/action.py:147-176 | A pass crashes exactly when some action's match lacks a group. The commands issued are those of the actions that fired before that point, in snapshot order. |
| ActionStore.RunPassDeletes | lyntin/modules/action.py:178-179 | A pass deletes only onetime actions that fired. A pass that completes deletes every one of them. |
| ActionStore.RunPassKeeps | lyntin/modules/action.py:178-179 | An action that is not onetime, or did not fire, is never deleted. |
| ActionStore.ByPriority | lyntin/modules/action.py:142-143 | Some ordering of the store's actions by nondecreasing priority always exists. It contains each action once. |
| ActionStore.InfoLines | lyntin/modules/action.py:214-220 | Describing a listing succeeds exactly when every listed trigger is in the store. It then gives one line per listed trigger. |
| ActionStore.InfoLinesDescribe | lyntin/modules/action.py:218-220 | The k-th line is `<cmdchar>action {trigger} {response} priority={p} onetime={flag}` for the k-th listed action. |
| ActionStore.ActionData.constructor | lyntin/modules/action.py:40-42 | A new store holds no actions. |
| ActionStore.ActionData.AddAction | lyntin/modules/action.py:67-72 | When the pattern compiles, it answers 1 and files the action under its trigger, replacing any previous one. Otherwise it raises and leaves the store as it was. |
| ActionStore.ActionData.RecompileRegexps | lyntin/modules/action.py:79-87 | It succeeds exactly when every stored trigger's pattern compiles, and the store then becomes `Recompiled` of the old store. When one fails, it raises with the pattern of a stored trigger not yet recompiled, and each action is either unchanged or already recompiled. The keys never change. |
| ActionStore.ActionData.Clear | lyntin/modules/action.py:89-93 | The store is empty afterwards. |
| ActionStore.ActionData.RemoveActions | lyntin/modules/action.py:95-117 | The result and the new store are those of the removal model `Remove`, whose properties are `RemoveSelected` and `RemoveOnlyDeletes`. |
| ActionStore.ActionData.GetActions | lyntin/modules/action.py:119-129 | The listing is strictly ascending and holds exactly the stored triggers. |
| ActionStore.ActionData.GetStatus | lyntin/modules/action.py:182-189 | The status line is a digit string that parses to the number of actions, without a leading zero, followed by `" action(s)."`. |
| ActionStore.ActionData.GetCount | lyntin/modules/action.py:224-231 | The count is the length of the trigger listing. |
| ActionStore.ActionData.CheckActions | lyntin/modules/action.py:131-179 | The pass runs over a priority-ordered snapshot of the store on the filtered line. Its commands, its crash and its onetime deletions are those of `RunPass`. |
| ActionStore.ActionData.RunActions | lyntin/modules/action.py:147-179 | The loop over the snapshot issues `RunPass`'s commands and deletes its onetime triggers from the live store. |
| ActionStore.ActionData.TryAction | lyntin/modules/action.py:148-170 | One action on one line gives no match, a crash on a missing group, or the expanded response with `%N` and `%a` bound. |
| ActionStore.ActionData.Snapshot | lyntin/modules/action.py:142-143 | The snapshot lists every stored action once, in nondecreasing priority. |
| ActionStore.ActionData.BindPlaceholders | lyntin/modules/action.py:161-163 | Binding succeeds with `Bindings` when the match has enough groups, and fails otherwise. |
| ActionStore.ActionData.GetInfo | lyntin/modules/action.py:191-222 | An empty store gives `''`. With no text, every stored trigger is listed once. With text, the selection is listed. The result joins their info lines with newlines, or raises KeyError for a missing trigger. |
| ActionStore.ActionData.Describe | lyntin/modules/action.py:214-220 | The loop builds exactly `InfoLines` of the listing. |
| ActionSessions.Copied | lyntin/modules/action.py:269-271 | A copied action keeps the base trigger, response, priority and flag, with its pattern compiled from the new session's expansion. |
| ActionSessions.ActionManager.constructor | lyntin/modules/action.py:235-236 | A new manager has no sessions. |
| ActionSessions.ActionManager.AddAction | lyntin/modules/action.py:238-241 | Creates the session's store on first use, then behaves as `ActionData.addAction` on it. Other sessions are unchanged. |
| ActionSessions.ActionManager.Clear | lyntin/modules/action.py:243-245 | The session has no actions afterwards. Other sessions are unchanged. |
| ActionSessions.ActionManager.RemoveActions | lyntin/modules/action.py:247-250 | Behaves as the session store's `removeActions`. A session without a store answers `[]`. |
| ActionSessions.ActionManager.GetActions | lyntin/modules/action.py:252-255 | The session's triggers in ascending order. A session without a store gives `[]`. |
| ActionSessions.ActionManager.CheckActions | lyntin/modules/action.py:257-259 | Runs the session's pass, as `ActionData.checkActions`. A session without a store does nothing. |
| ActionSessions.ActionManager.GetInfo | lyntin/modules/action.py:261-264 | The session store's description. A session without a store gives `''`. |
| ActionSessions.ActionManager.AddSession | lyntin/modules/action.py:266-271 | With a base session, the call succeeds exactly when every base trigger's pattern compiles for the new session. The new session then gains a copy of every base action, recompiled for the new session. Without a base session, nothing changes. A pattern that fails to compile raises. The new session is then left with the copies of the base triggers made so far, which exclude the trigger that failed. Only the new session's entry of the store map may be added. Every other session keeps its store object and its actions. |
| ActionSessions.ActionManager.CopyActions | lyntin/modules/action.py:269-271 | The copy loop, in any key order, succeeds exactly when every base trigger's pattern compiles for the new session. It then leaves the new session's store extended by `Copied` of the whole base. On a compile error, the store is extended by `Copied` of the triggers already visited, and the failing trigger is not among them. Only the new session's entry of the store map may be added. Every other session keeps its very store object and its actions. With no base triggers, no store is created. |
| ActionSessions.ActionManager.StoreFor | lyntin/modules/action.py:239-240 | The session has a store afterwards. A new, empty one is created only when it had none. No other entry of the store map changes, and no session's actions change. The new store is distinct from every other session's. |
| ActionSessions.CopyInto | lyntin/modules/action.py:270-271 | `addAction` for each base trigger on one store, in any key order. It succeeds exactly when every pattern compiles, and it then extends the store by `Copied` of the whole base. On the first failing pattern it raises that pattern's error. The store then holds the copies of the triggers visited before it. |
| ActionSessions.ActionManager.RemoveSession | lyntin/modules/action.py:273-275 | The session's store is forgotten. Other sessions are unchanged. |
| ActionSessions.ActionManager.GetStatus | lyntin/modules/action.py:277-280 | The status line parses to the session's action count, without a leading zero. The count is 0 for a session without a store. |

## Left out

- lyntin/modules/modutils.py: not part of this model. It only registers commands and hooks.
- `action_cmd`, `unaction_cmd` and the module's load/unload (lyntin/modules/action.py:345-455), and msdp.py's `load`/`unload` (lyntin/modules/msdp.py:194-198): command-line parsing and hook registration, outside the store and the codec.
- `ActionManager.persist` (lyntin/modules/action.py:282-297): file output. Its content is `GetInfo`, which is modelled.
- `ActionManager.variableChange` and `mudfilter` (lyntin/modules/action.py:299-320): hook glue. `variableChange` calls `RecompileRegexps` for the session. `mudfilter` calls `CheckActions` unless the session ignores actions (`_ignoreactions`, line 318), and returns the text unchanged.
- lyntin/utils.py, lyntin/exported.py, lyntin/ansi.py and lyntin/net.py are not part of this model. Their functions are parameters:
  - `compile_regexp` is a compiler predicate;
  - `search` is a matcher returning the groups;
  - `expand_ses_vars`, `expand_vars`, `escape`, `filter_ansi` and `filter_cm` are functions;
  - `expand_text` is the selection the caller passes in.
- A compiled regular expression is represented by the pattern text it was compiled from.
- `exported.lyntin_command` and its `try`/`except` (lyntin/modules/action.py:173-176): the commands are returned as output. A command that changes the store while the pass runs is not modelled.
- `ActionStore.ActionData.CheckActions`: an IndexError from `match.group` (more placeholders than groups) is modelled as the `crashed` flag, which ends the pass. The traceback and the caller's handling are not modelled.
- `ActionStore.ActionData.AddAction`: the defaults `priority=5` and `onetime=0` of `addAction` (lyntin/modules/action.py:44) are not modelled. Every call passes both values.
- `ActionStore.InfoLine`: `onetime` is a bool here. The source's default integer `0` would print as `0`, not `False`.
- `ActionStore.ActionData.CheckActions`: the docstring of `addAction` (lyntin/modules/action.py:55-57) says actions are sorted by priority and then by trigger. The code (lines 142-143) sorts by priority only, so equal priorities run in dict order. The model follows the code: `PriorityOrder` fixes no order among equal priorities.
- `ActionStore.Matcher` returns strings for every capture group. It cannot represent a group that took no part in the match, for which `match.group(i+1)` (lyntin/modules/action.py:163) gives `None`, and that `None` goes into the bindings.
- Python dict iteration order is an arbitrary choice. This applies to `_recompileRegexps`, `getInfo` with no text, `addSession`, and the order of equal priorities in `checkActions`.
- `MsdpHandler.HandleTelnetOption`: socket writes, `write_error`, the `msdp_data` SpamEvent and `StopSpammingException` are fields of the returned outcome. The `msdp_reportable_variables` hook chain is a pure function parameter.
- `MsdpCodec.Encode`: only byte strings are encoded as scalars. `str(data)` of numbers and other objects is not modelled. A Python dict is an ordered list of entries in its iteration order.
- `MsdpRoundTrip.DecodeEncode`: the round trip is proved for frames that hold only named variables. The conditions are that names and keys contain no VAL byte, keys are distinct, scalars contain no marker byte, and no `MSDPVar` is nested inside a value.
- The option negotiation described for the protocol, as a sequence of client states, is not in the code: the handler keeps no state between frames. The model follows the code.
- `ActionStore.ActionData.GetInfo` follows the code, which lists actions in dict order rather than sorted.
