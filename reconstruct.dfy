/**
 * Reading an Xdebug computer-readable trace (trace_format 1): dropping blank lines and
 * the header line, decoding each tab-separated line into an event, and rebuilding the
 * table of calls keyed by invocation number, as the xt branch of
 * getFilteredXDebugFunctionTrace does before it counts and prunes.
 */
module Reconstruct {
  import opened Wrappers
  import opened Strings
  import opened Numbers
  import opened Seqs

  /** `!empty(trim($line))`: the line is kept. */
  predicate IsContentLine(line: string) {
    Truthy(Trim(line))
  }

  /** The array_filter() that drops blank lines, order kept. */
  function ContentLines(lines: seq<string>): (kept: seq<string>)
    ensures forall l :: l in kept <==> l in lines && IsContentLine(l)
    ensures |kept| <= |lines|
  {
    if lines == [] then []
    else (if IsContentLine(lines[0]) then [lines[0]] else []) + ContentLines(lines[1..])
  }

  /** Dropping blank lines keeps the order and the repeats of the other lines: it works piece by piece. */
  lemma {:induction false} ContentLinesAppend(a: seq<string>, b: seq<string>)
    ensures ContentLines(a + b) == ContentLines(a) + ContentLines(b)
  {
    if a == [] {
      assert a + b == b;
    } else {
      var head := if IsContentLine(a[0]) then [a[0]] else [];
      AppendDropFirst(a, b);
      ContentLinesAppend(a[1..], b);
      Assoc(head, ContentLines(a[1..]), ContentLines(b));
    }
  }

  /** A single line is kept exactly when its trim is truthy. */
  lemma ContentLinesOne(l: string)
    ensures ContentLines([l]) == if IsContentLine(l) then [l] else []
  {
    assert [l][1..] == [];
  }

  /**
   * The lines left once blank lines and then the first remaining (header) line are
   * dropped; None when the file had no lines or nothing is left, the two cases the
   * source reports as "might doesn't have any content".
   */
  function TraceBody(lines: seq<string>): (body: Option<seq<string>>)
    ensures body.None? <==> |ContentLines(lines)| <= 1
    ensures body.Some? ==> body.value == ContentLines(lines)[1..] && |body.value| >= 1
  {
    var kept := ContentLines(lines);
    if |kept| <= 1 then None else Some(kept[1..])
  }

  /** What an enter line (type 0) stores for a call. */
  datatype EnterInfo = EnterInfo(
    depth: int, timeEnter: string, memoryEnter: string, internal: bool, line: string,
    params: seq<string>, functionLabel: string, location: string)

  /** What an exit line (type 1) adds to a call. */
  datatype ExitInfo = ExitInfo(timeExit: string, memoryExit: string, timeUsage: string, memoryDiff: int)

  /** One entry of the call table: whatever arrived for one invocation number. */
  datatype Call = Call(enter: Option<EnterInfo>, exit: Option<ExitInfo>, returned: Option<string>)

  /** A decoded line. `NoEvent` is a short line, an unknown type, or an enter the filter drops. */
  datatype Event =
    | NoEvent
    | Enter(num: int, info: EnterInfo)
    | Exit(num: int, time: string, memory: string)
    | Return(num: int, value: string)

  /** `$parts[$i]`, a missing field reading as "" (PHP's null). */
  function Field(parts: seq<string>, i: nat): string {
    if i < |parts| then parts[i] else ""
  }

  /** The nested helper removeRootPathFromPath: '/' becomes '\', then every case-insensitive occurrence of the root is deleted. */
  function RemoveRootPath(path: string, root: string): string {
    RemoveAllIgnoringCase(ReplaceChar(path, '/', '\\'), root)
  }

  /** A path after root removal has no '/' left: every separator became '\\' first. */
  lemma RootRemovedHasNoSlash(path: string, root: string)
    ensures '/' !in RemoveRootPath(path, root)
  {
    var normal := ReplaceChar(path, '/', '\\');
    assert '/' !in normal;
    RemovalAddsNothing(normal, root, '/');
  }

  /** getRootPath(): the root with '/' turned into '\' (the realpath() lookup happens outside the model). */
  function NormalRoot(rootPath: string): string {
    ReplaceChar(rootPath, '/', '\\')
  }

  predicate IsIncludeOrRequire(name: string) {
    name == "include" || name == "require"
  }

  /** The params of an enter line: field 7 alone when it is truthy, else the fields from 11 on. */
  function Params(parts: seq<string>): seq<string> {
    if Truthy(Field(parts, 7)) then [parts[7]] else if |parts| > 11 then parts[11..] else []
  }

  function FirstParam(params: seq<string>): string {
    if params == [] then "" else params[0]
  }

  /** The string the filter term is searched in: the function name, or the first param for include/require. */
  function FilterTarget(parts: seq<string>): string {
    if IsIncludeOrRequire(Field(parts, 5)) then FirstParam(Params(parts)) else Field(parts, 5)
  }

  /** `trim(name)(first param for include/require)`, with the root path removed. */
  function FunctionLabel(parts: seq<string>, root: string): string {
    var name := Field(parts, 5);
    RemoveRootPath(Trim(name) + "(" + (if IsIncludeOrRequire(name) then FirstParam(Params(parts)) else "") + ")", root)
  }

  /** `trim(file):line`, with the root path removed. */
  function LocationLabel(parts: seq<string>, root: string): string {
    RemoveRootPath(Trim(Field(parts, 8)) + ":" + Field(parts, 9), root)
  }

  /**
   * Decodes one trace line. Fields: 0 depth, 1 invocation number, 2 type ('0' enter,
   * '1' exit, 'R' return), 3 time, 4 memory, 5 function name (return value for 'R'),
   * 6 user-defined flag, 7 include/require file, 8 file, 9 line, 11 and on params.
   */
  function Decode(line: string, classTerm: string, root: string): (ev: Event)
    ensures ev.Enter? ==> StringHasString(FilterTarget(Split(line, '\t')), classTerm)
    ensures ev.Enter? ==>
      ev.info.functionLabel == FunctionLabel(Split(line, '\t'), root) &&
      ev.info.location == LocationLabel(Split(line, '\t'), root)
  {
    var parts := Split(line, '\t');
    if |parts| < 5 then NoEvent
    else
      var num := ParseInt(parts[1]);
      var kind := parts[2];
      if kind == "0" then
        if !StringHasString(FilterTarget(parts), classTerm) then NoEvent
        else Enter(num, EnterInfo(ParseInt(parts[0]), parts[3], parts[4], !Truthy(Field(parts, 6)),
                                  Field(parts, 9), Params(parts), FunctionLabel(parts, root), LocationLabel(parts, root)))
      else if kind == "1" then Exit(num, parts[3], parts[4])
      else if kind == "R" then Return(num, Field(parts, 5))
      else NoEvent
  }

  /** The call table `$calledFuncions`: invocation numbers in insertion order and the entry of each. */
  datatype Table = Table(order: seq<int>, calls: map<int, Call>)

  /** A PHP array's shape: each key once, and exactly the keys that have entries. */
  ghost predicate WellFormed(t: Table) {
    && (forall i, j :: 0 <= i < j < |t.order| ==> t.order[i] != t.order[j])
    && (forall n :: n in t.calls <==> n in t.order)
  }

  /** Every number in the order of a well-formed table has its entry. */
  lemma OrderIsStored(t: Table)
    requires WellFormed(t)
    ensures forall i :: 0 <= i < |t.order| ==> t.order[i] in t.calls
  {
    forall i | 0 <= i < |t.order| ensures t.order[i] in t.calls {
      var n := t.order[i];
      assert n in t.order;
      assert n in t.calls;
    }
  }

  /** The entry for `num`, or an empty one when there is none yet. */
  function CallOf(t: Table, num: int): Call {
    if num in t.calls then t.calls[num] else Call(None, None, None)
  }

  /** `$calledFuncions[$num] = ...`: a new key goes last, an existing key keeps its place. */
  function Store(t: Table, num: int, c: Call): Table {
    Table(if num in t.calls then t.order else t.order + [num], t.calls[num := c])
  }

  /** The time usage an exit stores: sprintf('%f', timeExit - timeEnter), both times read as numbers. */
  function Elapsed(timeExit: string, timeEnter: string): string {
    FormatMicros(ParseMicros(timeExit) - ParseMicros(timeEnter))
  }

  /** What an exit line stores: times and memory, the elapsed time and the memory difference. */
  function ExitOf(c: Call, time: string, memory: string): ExitInfo {
    var timeEnter := if c.enter.Some? then c.enter.value.timeEnter else "";
    var memoryEnter := if c.enter.Some? then c.enter.value.memoryEnter else "";
    ExitInfo(time, memory, Elapsed(time, timeEnter), ParseInt(memory) - ParseInt(memoryEnter))
  }

  /** One step of the reconstruction loop. */
  function Apply(t: Table, ev: Event): Table {
    match ev
    case NoEvent => t
    case Enter(num, info) => Store(t, num, Call(Some(info), None, None))
    case Exit(num, time, memory) => Store(t, num, CallOf(t, num).(exit := Some(ExitOf(CallOf(t, num), time, memory))))
    case Return(num, value) => Store(t, num, CallOf(t, num).(returned := Some(value)))
  }

  /** The table after the reconstruction loop has read `lines`. */
  function Replay(lines: seq<string>, classTerm: string, root: string): Table {
    if lines == [] then Table([], map[])
    else Apply(Replay(lines[..|lines| - 1], classTerm, root), Decode(lines[|lines| - 1], classTerm, root))
  }

  /**
   * The reconstruction foreach: reads the lines in order and updates the entry of each
   * line's invocation number in place.
   */
  method ReconstructCalls(lines: seq<string>, classTerm: string, root: string) returns (order: seq<int>, calls: map<int, Call>)
    ensures Table(order, calls) == Replay(lines, classTerm, root)
    ensures WellFormed(Table(order, calls))
  {
    order, calls := [], map[];
    for i := 0 to |lines|
      invariant Table(order, calls) == Replay(lines[..i], classTerm, root)
      invariant WellFormed(Table(order, calls))
    {
      ghost var before := Table(order, calls);
      ReplayStep(lines, i, classTerm, root);
      ApplyKeepsWellFormed(before, Decode(lines[i], classTerm, root));
      match Decode(lines[i], classTerm, root) {
        case NoEvent =>
        case Enter(num, info) =>
          if num !in calls {
            order := order + [num];
          }
          calls := calls[num := Call(Some(info), None, None)];
        case Exit(num, time, memory) =>
          var c := if num in calls then calls[num] else Call(None, None, None);
          if num !in calls {
            order := order + [num];
          }
          calls := calls[num := c.(exit := Some(ExitOf(c, time, memory)))];
        case Return(num, value) =>
          var c := if num in calls then calls[num] else Call(None, None, None);
          if num !in calls {
            order := order + [num];
          }
          calls := calls[num := c.(returned := Some(value))];
      }
      assert Table(order, calls) == Apply(before, Decode(lines[i], classTerm, root));
    }
    assert lines[..|lines|] == lines;
  }

  /** Reading one more line applies its event to the table read so far. */
  lemma ReplayStep(lines: seq<string>, i: nat, classTerm: string, root: string)
    requires i < |lines|
    ensures Replay(lines[..i + 1], classTerm, root) == Apply(Replay(lines[..i], classTerm, root), Decode(lines[i], classTerm, root))
  {
    assert lines[..i + 1][..i] == lines[..i];
  }

  lemma ApplyKeepsWellFormed(t: Table, ev: Event)
    requires WellFormed(t)
    ensures WellFormed(Apply(t, ev))
  {
    match ev
    case NoEvent =>
    case Enter(num, info) => StoreKeepsWellFormed(t, num, Call(Some(info), None, None));
    case Exit(num, time, memory) => StoreKeepsWellFormed(t, num, CallOf(t, num).(exit := Some(ExitOf(CallOf(t, num), time, memory))));
    case Return(num, value) => StoreKeepsWellFormed(t, num, CallOf(t, num).(returned := Some(value)));
  }

  /** Storing an entry keeps each key once: a new key is not yet in the order, so appending it repeats nothing. */
  lemma StoreKeepsWellFormed(t: Table, num: int, c: Call)
    requires WellFormed(t)
    ensures WellFormed(Store(t, num, c))
  {
    if num !in t.calls {
      assert Store(t, num, c).order == t.order + [num];
      assert forall i :: 0 <= i < |t.order| ==> t.order[i] != num;
    }
  }

  /** Every invocation number appears once in the table, whatever the lines. */
  lemma {:induction false} ReplayWellFormed(lines: seq<string>, classTerm: string, root: string)
    ensures WellFormed(Replay(lines, classTerm, root))
  {
    if lines != [] {
      ReplayWellFormed(lines[..|lines| - 1], classTerm, root);
      ApplyKeepsWellFormed(Replay(lines[..|lines| - 1], classTerm, root), Decode(lines[|lines| - 1], classTerm, root));
    }
  }

  /** A line with fewer than five fields changes nothing. */
  lemma ShortLineIgnored(t: Table, line: string, classTerm: string, root: string)
    requires |Split(line, '\t')| < 5
    ensures Apply(t, Decode(line, classTerm, root)) == t
  {
  }

  /** An enter line whose filter target lacks a truthy filter term creates no entry and changes nothing. */
  lemma FilteredEnterIgnored(t: Table, line: string, classTerm: string, root: string)
    requires |Split(line, '\t')| >= 5 && Split(line, '\t')[2] == "0"
    requires Truthy(classTerm) && !Contains(FilterTarget(Split(line, '\t')), classTerm)
    ensures Apply(t, Decode(line, classTerm, root)) == t
  {
  }

  /**
   * How a line of five or more fields decodes: type '0' is an enter exactly when its target
   * passes the filter, type '1' an exit with the time and memory of fields 3 and 4, type
   * 'R' a return with field 5, and any other type nothing; field 1 is the number throughout.
   */
  lemma DecodeLine(line: string, classTerm: string, root: string)
    requires |Split(line, '\t')| >= 5
    ensures var parts := Split(line, '\t');
      var ev := Decode(line, classTerm, root);
      && (ev.Enter? <==> parts[2] == "0" && StringHasString(FilterTarget(parts), classTerm))
      && (ev.Exit? <==> parts[2] == "1")
      && (ev.Return? <==> parts[2] == "R")
      && (!ev.NoEvent? ==> ev.num == ParseInt(parts[1]))
      && (ev.Enter? ==> ev.info.timeEnter == parts[3] && ev.info.memoryEnter == parts[4])
      && (ev.Exit? ==> ev.time == parts[3] && ev.memory == parts[4])
      && (ev.Return? ==> ev.value == Field(parts, 5))
  {
    var parts := Split(line, '\t');
    var num := ParseInt(parts[1]);
    var ev := Decode(line, classTerm, root);
    if parts[2] == "0" {
      if StringHasString(FilterTarget(parts), classTerm) {
        assert ev.Enter? && ev.num == num;
      } else {
        assert ev == NoEvent;
      }
    } else if parts[2] == "1" {
      assert ev == Exit(num, parts[3], parts[4]);
    } else if parts[2] == "R" {
      assert ev == Return(num, Field(parts, 5));
    } else {
      assert ev == NoEvent;
    }
  }

  /**
   * An enter line whose target passes the filter (always so for an empty term) creates,
   * or resets, the entry of its number: depth, enter time and memory from fields 0, 3 and
   * 4, the internal flag, line and params, the labels, and no exit or return yet. Every
   * other entry is left as it was.
   */
  lemma AcceptedEnterStored(t: Table, line: string, classTerm: string, root: string)
    requires |Split(line, '\t')| >= 5 && Split(line, '\t')[2] == "0"
    requires StringHasString(FilterTarget(Split(line, '\t')), classTerm)
    ensures var parts := Split(line, '\t');
      var t' := Apply(t, Decode(line, classTerm, root));
      var num := ParseInt(parts[1]);
      && num in t'.calls
      && t'.calls[num].enter.Some?
      && t'.calls[num].exit.None? && t'.calls[num].returned.None?
      && t'.calls[num].enter.value.depth == ParseInt(parts[0])
      && t'.calls[num].enter.value.timeEnter == parts[3]
      && t'.calls[num].enter.value.memoryEnter == parts[4]
      && t'.calls[num].enter.value.internal == !Truthy(Field(parts, 6))
      && t'.calls[num].enter.value.line == Field(parts, 9)
      && t'.calls[num].enter.value.params == Params(parts)
      && t'.calls[num].enter.value.functionLabel == FunctionLabel(parts, root)
      && t'.calls[num].enter.value.location == LocationLabel(parts, root)
      && (forall n :: n != num ==> (n in t'.calls <==> n in t.calls))
      && (forall n :: n != num && n in t.calls ==> t'.calls[n] == t.calls[n])
  {
  }

  /**
   * An exit line (type '1') touches only the entry of its number, field 1: it keeps that
   * entry's enter data and return value, stores the exit time and memory of fields 3 and
   * 4, the elapsed time as the %f of exit time minus enter time and the memory difference
   * (int)memoryExit - (int)memoryEnter, and leaves every other entry as it was.
   */
  lemma ExitTouchesOnlyItsCall(t: Table, line: string, classTerm: string, root: string)
    requires |Split(line, '\t')| >= 5 && Split(line, '\t')[2] == "1"
    ensures var parts := Split(line, '\t');
      var num := ParseInt(parts[1]);
      var t' := Apply(t, Decode(line, classTerm, root));
      var before := CallOf(t, num);
      var memoryEnter := if before.enter.Some? then before.enter.value.memoryEnter else "";
      var timeEnter := if before.enter.Some? then before.enter.value.timeEnter else "";
      && num in t'.calls
      && t'.calls[num].enter == before.enter
      && t'.calls[num].returned == before.returned
      && t'.calls[num].exit.Some?
      && t'.calls[num].exit.value.timeExit == parts[3]
      && t'.calls[num].exit.value.memoryExit == parts[4]
      && t'.calls[num].exit.value.timeUsage == Elapsed(parts[3], timeEnter)
      && t'.calls[num].exit.value.memoryDiff == ParseInt(parts[4]) - ParseInt(memoryEnter)
      && (forall n :: n != num ==> (n in t'.calls <==> n in t.calls))
      && (forall n :: n != num && n in t.calls ==> t'.calls[n] == t.calls[n])
  {
    var ev := Decode(line, classTerm, root);
    DecodeLine(line, classTerm, root);
    assert ev == Exit(ev.num, ev.time, ev.memory);
    ExitApplied(t, ev.num, ev.time, ev.memory);
  }

  /** The exit step in terms of the number, time and memory it carries. */
  lemma ExitApplied(t: Table, num: int, time: string, memory: string)
    ensures var t' := Apply(t, Exit(num, time, memory));
      var before := CallOf(t, num);
      var memoryEnter := if before.enter.Some? then before.enter.value.memoryEnter else "";
      var timeEnter := if before.enter.Some? then before.enter.value.timeEnter else "";
      && num in t'.calls
      && t'.calls[num].enter == before.enter
      && t'.calls[num].returned == before.returned
      && t'.calls[num].exit.Some?
      && t'.calls[num].exit.value.timeExit == time
      && t'.calls[num].exit.value.memoryExit == memory
      && t'.calls[num].exit.value.timeUsage == Elapsed(time, timeEnter)
      && t'.calls[num].exit.value.memoryDiff == ParseInt(memory) - ParseInt(memoryEnter)
      && (forall n :: n != num ==> (n in t'.calls <==> n in t.calls))
      && (forall n :: n != num && n in t.calls ==> t'.calls[n] == t.calls[n])
  {
    ExitStored(t, num, time, memory);
    ExitOfFields(CallOf(t, num), time, memory);
  }

  /** The exit step stores the call with its exit part set and touches no other entry. */
  lemma ExitStored(t: Table, num: int, time: string, memory: string)
    ensures var t' := Apply(t, Exit(num, time, memory));
      && num in t'.calls
      && t'.calls[num] == CallOf(t, num).(exit := Some(ExitOf(CallOf(t, num), time, memory)))
      && (forall n :: n != num ==> (n in t'.calls <==> n in t.calls))
      && (forall n :: n != num && n in t.calls ==> t'.calls[n] == t.calls[n])
  {
  }

  /** The fields of an exit part, in terms of the call's enter part. */
  lemma ExitOfFields(c: Call, time: string, memory: string)
    ensures var memoryEnter := if c.enter.Some? then c.enter.value.memoryEnter else "";
      var timeEnter := if c.enter.Some? then c.enter.value.timeEnter else "";
      && ExitOf(c, time, memory).timeExit == time
      && ExitOf(c, time, memory).memoryExit == memory
      && ExitOf(c, time, memory).timeUsage == Elapsed(time, timeEnter)
      && ExitOf(c, time, memory).memoryDiff == ParseInt(memory) - ParseInt(memoryEnter)
  {
  }

  /** A return line (type 'R') sets only the return value of its own entry, to field 5. */
  lemma ReturnSetsOnlyReturn(t: Table, line: string, classTerm: string, root: string)
    requires |Split(line, '\t')| >= 5 && Split(line, '\t')[2] == "R"
    ensures var parts := Split(line, '\t');
      var num := ParseInt(parts[1]);
      var t' := Apply(t, Decode(line, classTerm, root));
      && num in t'.calls
      && t'.calls[num] == CallOf(t, num).(returned := Some(Field(parts, 5)))
      && (forall n :: n != num ==> (n in t'.calls <==> n in t.calls))
      && (forall n :: n != num && n in t.calls ==> t'.calls[n] == t.calls[n])
  {
  }

  /** A line whose type is not '0', '1' or 'R' changes nothing. */
  lemma OtherTypeIgnored(t: Table, line: string, classTerm: string, root: string)
    requires |Split(line, '\t')| >= 5
    requires Split(line, '\t')[2] != "0" && Split(line, '\t')[2] != "1" && Split(line, '\t')[2] != "R"
    ensures Apply(t, Decode(line, classTerm, root)) == t
  {
  }

  /** After one step, an entry with enter data was either just entered or already had that enter data. */
  lemma ApplyKeepsEnter(t: Table, ev: Event, num: int)
    requires num in Apply(t, ev).calls && Apply(t, ev).calls[num].enter.Some?
    ensures || (ev.Enter? && ev.num == num && ev.info == Apply(t, ev).calls[num].enter.value)
            || (num in t.calls && t.calls[num].enter == Apply(t, ev).calls[num].enter)
  {
  }

  /**
   * Every entry that carries enter data came from an enter line of the trace that the
   * filter let through, so its labels are that line's labels.
   */
  lemma {:induction false} EnteredCallsPassedFilter(lines: seq<string>, classTerm: string, root: string, num: int)
    requires num in Replay(lines, classTerm, root).calls
    requires Replay(lines, classTerm, root).calls[num].enter.Some?
    ensures exists i :: 0 <= i < |lines| && Decode(lines[i], classTerm, root) == Enter(num, Replay(lines, classTerm, root).calls[num].enter.value)
  {
    var prefix := lines[..|lines| - 1];
    var t := Replay(prefix, classTerm, root);
    var ev := Decode(lines[|lines| - 1], classTerm, root);
    var after := Replay(lines, classTerm, root);
    assert after == Apply(t, ev);
    var info := after.calls[num].enter.value;
    ApplyKeepsEnter(t, ev, num);
    if ev.Enter? && ev.num == num && ev.info == info {
      assert Decode(lines[|lines| - 1], classTerm, root) == Enter(num, info);
    } else {
      EnteredCallsPassedFilter(prefix, classTerm, root, num);
      var i :| 0 <= i < |prefix| && Decode(prefix[i], classTerm, root) == Enter(num, info);
      assert lines[i] == prefix[i];
    }
  }

  /** Labels never contain '/': every separator was normalised to '\'. */
  lemma LabelsUseBackslashes(line: string, classTerm: string, root: string)
    requires Decode(line, classTerm, root).Enter?
    ensures '/' !in Decode(line, classTerm, root).info.functionLabel
    ensures '/' !in Decode(line, classTerm, root).info.location
  {
    var parts := Split(line, '\t');
    var name := Field(parts, 5);
    RootRemovedHasNoSlash(Trim(name) + "(" + (if IsIncludeOrRequire(name) then FirstParam(Params(parts)) else "") + ")", root);
    RootRemovedHasNoSlash(Trim(Field(parts, 8)) + ":" + Field(parts, 9), root);
  }

  lemma {:induction false} ReplaceCharConcat(a: string, b: string, from: char, to: char)
    ensures ReplaceChar(a + b, from, to) == ReplaceChar(a, from, to) + ReplaceChar(b, from, to)
  {
  }

  /**
   * A path that starts with the root, in any letter case and with either separator,
   * loses it: what is left is the rest of the path with '\' separators.
   */
  lemma RootStrippedFromPath(rootPath: string, prefix: string, rest: string)
    requires NormalRoot(rootPath) != [] && SameIgnoringCase(ReplaceChar(prefix, '/', '\\'), NormalRoot(rootPath))
    requires forall i :: !OccursIgnoringCaseAt(ReplaceChar(rest, '/', '\\'), NormalRoot(rootPath), i)
    ensures RemoveRootPath(prefix + rest, NormalRoot(rootPath)) == ReplaceChar(rest, '/', '\\')
  {
    ReplaceCharConcat(prefix, rest, '/', '\\');
    LeadingOccurrenceRemoved(ReplaceChar(prefix, '/', '\\'), NormalRoot(rootPath), ReplaceChar(rest, '/', '\\'));
    NothingToRemove(ReplaceChar(rest, '/', '\\'), NormalRoot(rootPath));
  }

  /**
   * Every occurrence of the root is removed, not only the first: when the normalised path
   * has its first occurrence of the root at `i`, the text before it is kept and the rest of
   * the path after it has its own occurrences removed.
   */
  lemma EveryRootOccurrenceRemoved(path: string, root: string, i: nat)
    requires root != []
    requires OccursIgnoringCaseAt(ReplaceChar(path, '/', '\\'), root, i)
    requires NoOccurrenceBefore(ReplaceChar(path, '/', '\\'), root, i)
    ensures var normal := ReplaceChar(path, '/', '\\');
      RemoveRootPath(path, root) == normal[..i] + RemoveAllIgnoringCase(normal[i + |root|..], root)
  {
    MiddleOccurrenceRemoved(ReplaceChar(path, '/', '\\'), root, i);
  }
}
