/** The console wrappers of the capture script: the records they post and the group state
    (`groupDepth`, `groupStack`) they keep between calls. */
module Capture {
  import opened JsValues
  import opened Format
  import opened TableCommand

  /** The five wrapped logging methods. */
  datatype Level = Log | Warn | Error | Info | Debug

  /** The `type` field of a posted record. */
  datatype Kind = Logged(level: Level) | GroupStart | GroupEnd

  /** What a record carries as its message: the formatted arguments, a fixed text, or the
      text of a table. */
  datatype Payload = Parts(m: Message) | Text(s: string) | TableOut(t: TableLog)

  /** The fields of one posted message; `timestamp` is not modelled. */
  datatype Record = Record(kind: Kind, message: Payload, groupDepth: int, inGroup: bool,
                           isGroupStart: bool, collapsed: bool)

  /** An entry of `groupStack`: the group's label and whether it starts collapsed. */
  datatype GroupFrame = GroupFrame(title: Payload, collapsed: bool)

  /** The label of a group: the formatted arguments, or "Group" when there are none. */
  function GroupLabel(h: Heap, args: seq<Value>): (title: Payload)
    requires Closed(h) && forall j :: 0 <= j < |args| ==> InHeap(h, args[j])
    ensures |args| == 0 <==> title == Text("Group")
    ensures |args| > 0 ==> title.Parts? && title.m == FormatSpec(h, args)
  {
    if |args| > 0 then Parts(FormatSpec(h, args)) else Text("Group")
  }

  /** The label `console.group` computes from its arguments. */
  method Label(h: Heap, args: seq<Value>) returns (title: Payload)
    requires Closed(h) && forall j :: 0 <= j < |args| ==> InHeap(h, args[j])
    ensures title == GroupLabel(h, args)
  {
    if |args| > 0 {
      var m := FormatMessage(h, args);
      return Parts(m);
    }
    return Text("Group");
  }

  /** The state the wrappers share, and the records they have posted so far. */
  class ConsoleCapture {
    var groupDepth: int
    var groupStack: seq<GroupFrame>
    var posted: seq<Record>

    /** One stack entry per open group. */
    predicate Valid()
      reads this
    {
      groupDepth >= 0 && |groupStack| == groupDepth
    }

    constructor()
      ensures Valid()
      ensures groupDepth == 0 && groupStack == [] && posted == []
    {
      groupDepth := 0;
      groupStack := [];
      posted := [];
    }

    /** `console.log`, `warn`, `error`, `info` and `debug`: post the formatted arguments at
        the current depth, marked as inside a group when the depth is positive. */
    method Emit(level: Level, h: Heap, args: seq<Value>)
      requires Valid()
      requires Closed(h) && forall j :: 0 <= j < |args| ==> InHeap(h, args[j])
      modifies this
      ensures Valid()
      ensures groupDepth == old(groupDepth) && groupStack == old(groupStack)
      ensures posted == old(posted) + [Record(Logged(level), Parts(FormatSpec(h, args)), groupDepth, groupDepth > 0, false, false)]
    {
      var message := FormatMessage(h, args);
      posted := posted + [Record(Logged(level), Parts(message), groupDepth, groupDepth > 0, false, false)];
    }

    /** `console.group` (collapsed false) and `console.groupCollapsed` (collapsed true): open
        a group one level deeper and post its start at the depth it was opened from. */
    method StartGroup(h: Heap, args: seq<Value>, collapsed: bool)
      requires Valid()
      requires Closed(h) && forall j :: 0 <= j < |args| ==> InHeap(h, args[j])
      modifies this
      ensures Valid()
      ensures groupDepth == old(groupDepth) + 1
      ensures groupStack == old(groupStack) + [GroupFrame(GroupLabel(h, args), collapsed)]
      ensures posted == old(posted) + [Record(GroupStart, GroupLabel(h, args), old(groupDepth), false, true, collapsed)]
    {
      var title := Label(h, args);
      posted := posted + [Record(GroupStart, title, groupDepth, false, true, collapsed)];
      groupStack := groupStack + [GroupFrame(title, collapsed)];
      groupDepth := groupDepth + 1;
    }

    /** `console.groupEnd`: close the innermost group and post its end at the new depth;
        with no group open, nothing changes and nothing is posted. */
    method EndGroup()
      requires Valid()
      modifies this
      ensures Valid()
      ensures old(groupDepth) == 0 ==>
        groupDepth == 0 && groupStack == old(groupStack) && posted == old(posted)
      ensures old(groupDepth) > 0 ==>
        && groupDepth == old(groupDepth) - 1
        && groupStack == old(groupStack)[..groupDepth]
        && posted == old(posted) + [Record(GroupEnd, Text(""), groupDepth, false, false, false)]
    {
      if groupDepth > 0 {
        groupDepth := groupDepth - 1;
        groupStack := groupStack[..|groupStack| - 1];
        posted := posted + [Record(GroupEnd, Text(""), groupDepth, false, false, false)];
      }
    }

    /** `console.table`: with no arguments nothing is posted; otherwise one log record at
        depth 0, whatever the current group depth. */
    method Table(h: Heap, args: seq<Value>)
      requires Valid()
      requires Closed(h) && forall j :: 0 <= j < |args| ==> InHeap(h, args[j])
      modifies this
      ensures Valid()
      ensures groupDepth == old(groupDepth) && groupStack == old(groupStack)
      ensures |args| == 0 ==> posted == old(posted)
      ensures |args| > 0 ==>
        posted == old(posted) + [Record(Logged(Log), TableOut(TableLogSpec(h, args)), 0, false, false, false)]
    {
      if |args| == 0 {
        return;
      }
      var log := TableMessage(h, args);
      posted := posted + [Record(Logged(Log), TableOut(log), 0, false, false, false)];
    }
  }

  /** Opening a group and closing it again restores the depth and the stack, and the two
      records it posts carry the same depth. */
  method GroupThenEnd(c: ConsoleCapture, h: Heap, args: seq<Value>, collapsed: bool)
    requires c.Valid()
    requires Closed(h) && forall j :: 0 <= j < |args| ==> InHeap(h, args[j])
    modifies c
    ensures c.Valid()
    ensures c.groupDepth == old(c.groupDepth) && c.groupStack == old(c.groupStack)
    ensures |c.posted| == |old(c.posted)| + 2
    ensures c.posted[|c.posted| - 2].kind == GroupStart && c.posted[|c.posted| - 1].kind == GroupEnd
    ensures c.posted[|c.posted| - 2].groupDepth == c.posted[|c.posted| - 1].groupDepth == old(c.groupDepth)
  {
    c.StartGroup(h, args, collapsed);
    c.EndGroup();
  }
}
