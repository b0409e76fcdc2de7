/** `formatMessage`: rebuilds the `%c` styling protocol of a console call into an ordered
    list of styled text parts. */
module Format {
  import opened JsStrings
  import opened JsValues
  import opened Serializer

  datatype Part = Part(text: string, style: Option<string>)

  /** The structured result that the capture script transmits (as JSON text). */
  datatype Message = Message(parts: seq<Part>, hasStyles: bool)

  /** The CSS keywords of the style heuristic. */
  const StyleKeywords: seq<string> :=
    ["color:", "font-", "background", "padding", "margin", "border", "text-", "display", "width", "height"]

  /** The CSS-keyword heuristic: a string is taken for a style declaration when it contains
      one of the keywords. */
  predicate IsStyleString(s: string) {
    exists i :: 0 <= i < |StyleKeywords| && Contains(s, StyleKeywords[i])
  }

  lemma StyleStringNonEmpty(s: string)
    requires IsStyleString(s)
    ensures s != ""
  {
    var i :| 0 <= i < |StyleKeywords| && Contains(s, StyleKeywords[i]);
    assert |StyleKeywords[i]| > 0;
  }

  predicate IsFormatString(v: Value) {
    v.Str? && Contains(v.s, "%c")
  }

  /** The position of the first format string at or after `from`. */
  function FindFormat(args: seq<Value>, from: nat): (r: Option<nat>)
    ensures r.Some? ==> (from <= r.value < |args| && IsFormatString(args[r.value])
      && forall j :: from <= j < r.value ==> !IsFormatString(args[j]))
    ensures r.None? ==> forall j :: from <= j < |args| ==> !IsFormatString(args[j])
    decreases |args| - from
  {
    if from >= |args| then None
    else if IsFormatString(args[from]) then Some(from)
    else FindFormat(args, from + 1)
  }

  /** The text an argument contributes: objects through the serializer, anything else
      through `String(x)`. */
  function ValueText(h: Heap, v: Value): string
    requires Closed(h) && InHeap(h, v)
  {
    if v.Ref? then SafeStringify(h, v, 0) else ToJsString(h, v)
  }

  /** `/^\(\d+\)/` after the opening parenthesis: one or more digits, then `)`. */
  predicate DigitsThenClose(v: string) {
    |v| >= 2 && IsDigit(v[0]) && (v[1] == ')' || DigitsThenClose(v[1..]))
  }

  /** The trimmed text starts like a serialized object, array or array count. */
  predicate OpensStructure(t: string) {
    var u := Trim(t);
    StartsWith(u, "{") || StartsWith(u, "[") || (|u| > 0 && u[0] == '(' && DigitsThenClose(u[1..]))
  }

  /** The "label:" adjacency rule. */
  predicate Adjacent(last: string, t: string) {
    EndsWith(Trim(last), ":") && OpensStructure(t)
  }

  /** Appending one text: nothing for an empty text, otherwise one unstyled part, with a
      leading space when it follows a "label:" part and opens a structure. */
  function Push(parts: seq<Part>, t: string): seq<Part> {
    if t == "" then parts
    else if |parts| > 0 && Adjacent(parts[|parts| - 1].text, t) then parts + [Part(" " + t, None)]
    else parts + [Part(t, None)]
  }

  function PushAll(parts: seq<Part>, ts: seq<string>): seq<Part>
    decreases |ts|
  {
    if |ts| == 0 then parts else PushAll(Push(parts, ts[0]), ts[1..])
  }

  /** The style an argument gives a `%c` segment, if it looks like CSS. */
  function StyleFor(args: seq<Value>, k: nat): Option<string> {
    if k < |args| && args[k].Str? && IsStyleString(args[k].s) then Some(args[k].s) else None
  }

  /** Where the segment that starts at `start` ends: the next `%c`, or the end. */
  function SegmentEnd(fs: string, start: nat): (e: nat)
    requires start <= |fs|
    ensures start <= e <= |fs|
  {
    var e := IndexOf(fs, "%c", start);
    if e == -1 then |fs| else e
  }

  /** A segment holds no marker, and ends at the next one or at the end. */
  lemma SegmentEndSpec(fs: string, start: nat)
    requires start <= |fs|
    ensures forall j: nat :: start <= j < SegmentEnd(fs, start) ==> !OccursAt(fs, "%c", j)
    ensures SegmentEnd(fs, start) < |fs| ==> OccursAt(fs, "%c", SegmentEnd(fs, start))
  {
    IndexOfSpec(fs, "%c", start);
  }

  datatype Walked = Walked(parts: seq<Part>, next: nat)

  /** The unstyled text before a marker, if any. */
  function Lead(fs: string, cur: nat, nextC: nat): seq<Part>
    requires cur <= nextC <= |fs|
  {
    if nextC > cur then [Part(fs[cur..nextC], None)] else []
  }

  /** The segment after a marker, styled by argument `k` if that looks like CSS; an empty
      segment gives no part. */
  function Seg(fs: string, args: seq<Value>, start: nat, end: nat, k: nat): seq<Part>
    requires start <= end <= |fs|
  {
    if fs[start..end] == "" then [] else [Part(fs[start..end], StyleFor(args, k))]
  }

  /** The style argument to try after a segment: the next one if this one was used. */
  function NextArg(fs: string, args: seq<Value>, start: nat, end: nat, k: nat): nat
    requires start <= end <= |fs|
  {
    if fs[start..end] != "" && StyleFor(args, k).Some? then k + 1 else k
  }

  /** The scan of the format string from `cur`, with `k` the next style argument to try:
      the parts it produces and the style argument index it ends with. */
  function Walk(fs: string, args: seq<Value>, cur: nat, k: nat): Walked
    requires cur <= |fs|
    decreases |fs| - cur
  {
    if cur == |fs| then Walked([], k)
    else
      var nextC := IndexOf(fs, "%c", cur);
      if nextC == -1 then Walked([Part(fs[cur..], None)], k)
      else
        var end := SegmentEnd(fs, nextC + 2);
        var rest := Walk(fs, args, end, NextArg(fs, args, nextC + 2, end, k));
        Walked(Lead(fs, cur, nextC) + Seg(fs, args, nextC + 2, end, k) + rest.parts, rest.next)
  }

  /** One step of the scan at a `%c` marker: the text before the marker, the segment after
      it, then the rest of the scan from the segment's end. */
  lemma WalkStep(fs: string, args: seq<Value>, cur: nat, k: nat, nextC: nat, end: nat,
                 lead: seq<Part>, seg: seq<Part>, k': nat)
    requires cur < |fs| && nextC == IndexOf(fs, "%c", cur)
    requires nextC + 2 <= |fs| && end == SegmentEnd(fs, nextC + 2)
    requires lead == Lead(fs, cur, nextC)
    requires seg == Seg(fs, args, nextC + 2, end, k)
    requires k' == NextArg(fs, args, nextC + 2, end, k)
    ensures Walk(fs, args, cur, k) == Walked(lead + seg + Walk(fs, args, end, k').parts, Walk(fs, args, end, k').next)
  {
  }

  lemma ConcatAssoc(a: seq<Part>, b: seq<Part>, c: seq<Part>, d: seq<Part>)
    ensures a + (b + c + d) == a + b + c + d
  {
  }

  /** The scan's last step, when no marker is left. */
  lemma WalkTail(fs: string, args: seq<Value>, cur: nat, k: nat)
    requires cur < |fs| && IndexOf(fs, "%c", cur) == -1
    ensures Walk(fs, args, cur, k) == Walked([Part(fs[cur..], None)], k)
  {
  }

  /** A trailing argument is appended unless its index was consumed as a style, it is the
      format string at index 0, or it is a string that looks like CSS. */
  predicate Kept(args: seq<Value>, k: nat, skipFirst: bool, i: nat)
    requires i < |args|
  {
    !(1 <= i < k) && !(i == 0 && skipFirst) && !(args[i].Str? && IsStyleString(args[i].s))
  }

  function KeptIndices(args: seq<Value>, k: nat, skipFirst: bool, i: nat): seq<nat>
    decreases |args| - i
  {
    if i >= |args| then []
    else if Kept(args, k, skipFirst, i) then [i] + KeptIndices(args, k, skipFirst, i + 1)
    else KeptIndices(args, k, skipFirst, i + 1)
  }

  function LeftoverTexts(h: Heap, args: seq<Value>, k: nat, skipFirst: bool, i: nat): seq<string>
    requires Closed(h) && forall j :: 0 <= j < |args| ==> InHeap(h, args[j])
    decreases |args| - i
  {
    if i >= |args| then []
    else if Kept(args, k, skipFirst, i) then [ValueText(h, args[i])] + LeftoverTexts(h, args, k, skipFirst, i + 1)
    else LeftoverTexts(h, args, k, skipFirst, i + 1)
  }

  function PlainTexts(h: Heap, args: seq<Value>): (ts: seq<string>)
    requires Closed(h) && forall j :: 0 <= j < |args| ==> InHeap(h, args[j])
  {
    seq(|args|, i requires 0 <= i < |args| => ValueText(h, args[i]))
  }

  predicate AnyStyled(parts: seq<Part>) {
    exists j :: 0 <= j < |parts| && parts[j].style.Some?
  }

  /** The message `formatMessage(args)` builds. */
  function FormatSpec(h: Heap, args: seq<Value>): Message
    requires Closed(h) && forall j :: 0 <= j < |args| ==> InHeap(h, args[j])
  {
    if |args| == 0 then Message([], false)
    else match FindFormat(args, 0)
      case None => Message(PushAll([], PlainTexts(h, args)), false)
      case Some(f) =>
        var fs := args[f].s;
        var w := Walk(fs, args, 0, 1);
        var parts := PushAll(w.parts, LeftoverTexts(h, args, w.next, args[0] == Str(fs), 0));
        Message(parts, AnyStyled(parts))
  }

  /** The indices `lo` to `hi - 1`. */
  function IndexRange(lo: nat, hi: nat): (r: set<nat>)
    ensures forall j: nat :: j in r <==> lo <= j < hi
    decreases hi
  {
    if hi <= lo then {} else IndexRange(lo, hi - 1) + {hi - 1}
  }

  lemma IndexRangeExtend(lo: nat, hi: nat)
    requires lo <= hi
    ensures IndexRange(lo, hi) + {hi} == IndexRange(lo, hi + 1)
  {
  }

  // ---------------------------------------------------------------------------------------
  // What the message holds

  lemma {:induction false} AnyStyledIff(ps: seq<Part>)
    ensures AnyStyled(ps) <==> |Styles(ps)| > 0
    decreases |ps|
  {
    if |ps| > 0 {
      AnyStyledIff(ps[1..]);
      if AnyStyled(ps[1..]) {
        var j :| 0 <= j < |ps[1..]| && ps[1..][j].style.Some?;
        assert ps[j + 1].style.Some?;
      }
      if AnyStyled(ps) && ps[0].style.None? {
        var j :| 0 <= j < |ps| && ps[j].style.Some?;
        assert ps[1..][j - 1].style.Some?;
      }
    }
  }

  /** Parts appended after `base` carry no style, so the styles are those of the first `base`. */
  lemma {:induction false} StylesOfPrefix(r: seq<Part>, base: nat)
    requires base <= |r| && forall j :: base <= j < |r| ==> r[j].style.None?
    ensures Styles(r) == Styles(r[..base])
    decreases |r| - base
  {
    if base < |r| {
      StylesOfPrefix(r, base + 1);
      StylesConcat(r[..base], [r[base]]);
      assert r[..base + 1] == r[..base] + [r[base]];
    } else {
      assert r[..base] == r;
    }
  }

  lemma AppendedNonEmpty(r: seq<Part>, base: nat, ne: seq<string>)
    requires AppendedAs(r, base, ne)
    requires forall i :: 0 <= i < |ne| ==> ne[i] != ""
    ensures forall j :: base <= j < |r| ==> r[j].style.None? && r[j].text != ""
  {
    forall j | base <= j < |r|
      ensures r[j].style.None? && r[j].text != ""
    {
      assert r[base + (j - base)] == Pushed(r[..j], ne[j - base]);
    }
  }

  lemma {:induction false} NonEmptyTexts(ts: seq<string>)
    ensures forall i :: 0 <= i < |NonEmpty(ts)| ==> NonEmpty(ts)[i] != ""
    decreases |ts|
  {
    if |ts| > 0 {
      NonEmptyTexts(ts[1..]);
    }
  }

  /** Without a format string the message holds one unstyled part per non-empty argument
      text, in argument order, and reports no styles. */
  lemma FormatWithoutMarkers(h: Heap, args: seq<Value>)
    requires Closed(h) && forall j :: 0 <= j < |args| ==> InHeap(h, args[j])
    requires FindFormat(args, 0).None?
    ensures var m := FormatSpec(h, args);
      && !m.hasStyles
      && AppendedAs(m.parts, 0, NonEmpty(PlainTexts(h, args)))
      && forall j :: 0 <= j < |m.parts| ==> m.parts[j].style.None? && m.parts[j].text != ""
  {
    var m := FormatSpec(h, args);
    if |args| > 0 {
      PushAllParts([], PlainTexts(h, args));
      NonEmptyTexts(PlainTexts(h, args));
      AppendedNonEmpty(m.parts, 0, NonEmpty(PlainTexts(h, args)));
    }
  }

  /** With a format string the message starts with the parts of the `%c` scan, which spell the
      format string without its markers; the styles of the message are the consumed style
      arguments 1, 2, ... in order; the kept trailing arguments follow as unstyled parts; and
      `hasStyles` holds exactly when some style argument was consumed. */
  lemma FormatWithMarkers(h: Heap, args: seq<Value>)
    requires Closed(h) && forall j :: 0 <= j < |args| ==> InHeap(h, args[j])
    requires FindFormat(args, 0).Some?
    ensures var fs := args[FindFormat(args, 0).value].s;
      var w := Walk(fs, args, 0, 1);
      var m := FormatSpec(h, args);
      && |w.parts| <= |m.parts| && m.parts[..|w.parts|] == w.parts
      && TextOf(w.parts) == StripMarkers(fs)
      && AppendedAs(m.parts, |w.parts|, NonEmpty(LeftoverTexts(h, args, w.next, args[0] == Str(fs), 0)))
      && Styles(m.parts) == Styles(w.parts)
      && |Styles(m.parts)| == w.next - 1 && StylesFrom(Styles(m.parts), args, 1)
      && (m.hasStyles <==> w.next > 1)
      && forall j :: 0 <= j < |m.parts| ==> m.parts[j].text != ""
  {
    var fs := args[FindFormat(args, 0).value].s;
    var w := Walk(fs, args, 0, 1);
    var ts := LeftoverTexts(h, args, w.next, args[0] == Str(fs), 0);
    var m := FormatSpec(h, args);
    assert m.parts == PushAll(w.parts, ts);
    PushAllParts(w.parts, ts);
    NonEmptyTexts(ts);
    AppendedNonEmpty(m.parts, |w.parts|, NonEmpty(ts));
    WalkText(fs, args, 0, 1);
    assert fs[0..] == fs;
    WalkStyles(fs, args, 0, 1);
    WalkPartsNonEmpty(fs, args, 0, 1);
    StylesOfPrefix(m.parts, |w.parts|);
    AnyStyledIff(m.parts);
    forall j | 0 <= j < |m.parts|
      ensures m.parts[j].text != ""
    {
      if j < |w.parts| {
        assert m.parts[j] == m.parts[..|w.parts|][j];
      }
    }
  }

  /** One turn of the `%c` scan loop of `formatMessage`, from position `cur` with `k` the
      next style argument: the parts it appends, where it leaves the scan, and the style
      argument it consumes, if any. */
  method ScanStep(fs: string, args: seq<Value>, cur: nat, parts: seq<Part>, k: nat, consumed: set<nat>)
    returns (cur': nat, parts': seq<Part>, k': nat, consumed': set<nat>)
    requires cur < |fs| && 1 <= k
    ensures cur < cur' <= |fs|
    ensures k' == k || (k' == k + 1 && StyleFor(args, k).Some?)
    ensures consumed == IndexRange(1, k) ==> consumed' == IndexRange(1, k')
    ensures parts' + Walk(fs, args, cur', k').parts == parts + Walk(fs, args, cur, k).parts
    ensures Walk(fs, args, cur', k').next == Walk(fs, args, cur, k).next
  {
    var nextC := IndexOf(fs, "%c", cur);
    if nextC == -1 {
      WalkTail(fs, args, cur, k);
      var remaining := fs[cur..];
      parts' := if remaining != "" then parts + [Part(remaining, None)] else parts;
      return |fs|, parts', k, consumed;
    }
    var withLead := parts;
    if nextC > cur {
      withLead := withLead + [Part(fs[cur..nextC], None)];
    }
    assert withLead == parts + Lead(fs, cur, nextC);
    parts', k', consumed', cur' := ScanSegment(fs, args, nextC + 2, withLead, k, consumed);
    WalkStep(fs, args, cur, k, nextC, cur', Lead(fs, cur, nextC), Seg(fs, args, nextC + 2, cur', k), k');
    ConcatAssoc(parts, Lead(fs, cur, nextC), Seg(fs, args, nextC + 2, cur', k), Walk(fs, args, cur', k').parts);
  }

  /** The text after a `%c` marker, up to the next marker or the end, with the style
      argument `k` applied when it looks like CSS; an empty segment adds nothing. */
  method ScanSegment(fs: string, args: seq<Value>, textStart: nat, parts: seq<Part>, k: nat, consumed: set<nat>)
    returns (parts': seq<Part>, k': nat, consumed': set<nat>, textEnd: nat)
    requires textStart <= |fs| && 1 <= k
    ensures textEnd == SegmentEnd(fs, textStart)
    ensures parts' == parts + Seg(fs, args, textStart, textEnd, k)
    ensures k' == NextArg(fs, args, textStart, textEnd, k)
    ensures k' == k || (k' == k + 1 && StyleFor(args, k).Some?)
    ensures consumed == IndexRange(1, k) ==> consumed' == IndexRange(1, k')
  {
    parts', k', consumed' := parts, k, consumed;
    var end := IndexOf(fs, "%c", textStart);
    textEnd := if end == -1 then |fs| else end;
    var styledText := fs[textStart..textEnd];
    var styleArg: Option<Value> := if k < |args| then Some(args[k]) else None;
    if styleArg.Some? && styleArg.value.Str? && IsStyleString(styleArg.value.s) {
      StyleStringNonEmpty(styleArg.value.s);
    }
    if styledText != "" {
      if styleArg.Some? && Truthy(styleArg.value) && styleArg.value.Str? {
        if IsStyleString(styleArg.value.s) {
          parts' := parts' + [Part(styledText, Some(styleArg.value.s))];
          consumed' := consumed' + {k};
          k' := k + 1;
          IndexRangeExtend(1, k);
        } else {
          parts' := parts' + [Part(styledText, None)];
        }
      } else {
        parts' := parts' + [Part(styledText, None)];
      }
    }
  }

  // ---------------------------------------------------------------------------------------
  // What the scan produces

  /** The concatenated text of a list of parts. */
  function TextOf(parts: seq<Part>): string {
    if |parts| == 0 then "" else parts[0].text + TextOf(parts[1..])
  }

  /** The styles of the styled parts, in order. */
  function Styles(parts: seq<Part>): seq<string> {
    if |parts| == 0 then []
    else (if parts[0].style.Some? then [parts[0].style.value] else []) + Styles(parts[1..])
  }

  /** A string with every `%c` marker removed, markers taken left to right without overlap. */
  function StripMarkers(s: string): string {
    if |s| == 0 then ""
    else if OccursAt(s, "%c", 0) then StripMarkers(s[2..])
    else [s[0]] + StripMarkers(s[1..])
  }

  lemma {:induction false} TextOfConcat(a: seq<Part>, b: seq<Part>)
    ensures TextOf(a + b) == TextOf(a) + TextOf(b)
    decreases |a|
  {
    if |a| > 0 {
      TextOfConcat(a[1..], b);
      assert (a + b)[0] == a[0];
      assert (a + b)[1..] == a[1..] + b;
    } else {
      assert a + b == b;
    }
  }

  lemma {:induction false} StylesConcat(a: seq<Part>, b: seq<Part>)
    ensures Styles(a + b) == Styles(a) + Styles(b)
    decreases |a|
  {
    if |a| > 0 {
      StylesConcat(a[1..], b);
      assert (a + b)[0] == a[0];
      assert (a + b)[1..] == a[1..] + b;
    } else {
      assert a + b == b;
    }
  }

  lemma OccursShift(s: string, sub: string, d: nat, j: nat)
    requires d <= |s|
    ensures OccursAt(s[d..], sub, j) <==> OccursAt(s, sub, d + j)
  {
    if OccursAt(s, sub, d + j) {
      assert s[d..][j..j + |sub|] == s[d + j..d + j + |sub|];
    }
    if OccursAt(s[d..], sub, j) {
      assert s[d..][j..j + |sub|] == s[d + j..d + j + |sub|];
    }
  }

  /** A stretch `lo..hi` without markers is kept verbatim. */
  lemma {:induction false} StripPrefixPlain(fs: string, lo: nat, hi: nat)
    requires lo <= hi <= |fs|
    requires forall j: nat :: lo <= j < hi ==> !OccursAt(fs, "%c", j)
    ensures StripMarkers(fs[lo..]) == fs[lo..hi] + StripMarkers(fs[hi..])
    decreases hi - lo
  {
    if lo < hi {
      OccursShift(fs, "%c", lo, 0);
      assert fs[lo..][1..] == fs[lo + 1..];
      assert StripMarkers(fs[lo..]) == [fs[lo]] + StripMarkers(fs[lo + 1..]);
      StripPrefixPlain(fs, lo + 1, hi);
      assert [fs[lo]] + fs[lo + 1..hi] == fs[lo..hi];
    }
  }

  /** A marker is dropped. */
  lemma StripMarker(fs: string, at: nat)
    requires OccursAt(fs, "%c", at)
    ensures StripMarkers(fs[at..]) == StripMarkers(fs[at + 2..])
  {
    assert OccursAt(fs[at..], "%c", 0);
    assert fs[at..][2..] == fs[at + 2..];
  }

  /** Stripping across one marker: the plain text before it, the segment after it up to the
      next marker or the end, then the rest. */
  lemma StripAtMarker(fs: string, cur: nat, nextC: nat, end: nat)
    requires cur <= nextC && nextC + 2 <= end <= |fs|
    requires forall j: nat :: cur <= j < nextC ==> !OccursAt(fs, "%c", j)
    requires OccursAt(fs, "%c", nextC)
    requires forall j: nat :: nextC + 2 <= j < end ==> !OccursAt(fs, "%c", j)
    ensures StripMarkers(fs[cur..]) == fs[cur..nextC] + fs[nextC + 2..end] + StripMarkers(fs[end..])
  {
    StripPrefixPlain(fs, cur, nextC);
    StripMarker(fs, nextC);
    StripPrefixPlain(fs, nextC + 2, end);
  }

  /** Stripping a string without markers leaves it unchanged. */
  lemma StripNone(fs: string, cur: nat)
    requires cur <= |fs|
    requires forall j: nat :: cur <= j ==> !OccursAt(fs, "%c", j)
    ensures StripMarkers(fs[cur..]) == fs[cur..]
  {
    StripPrefixPlain(fs, cur, |fs|);
    assert fs[|fs|..] == "";
  }

  /** The scan neither loses nor invents text: its parts spell out the format string from
      `cur` on with every `%c` marker removed. */
  lemma {:induction false} WalkText(fs: string, args: seq<Value>, cur: nat, k: nat)
    requires cur <= |fs|
    ensures TextOf(Walk(fs, args, cur, k).parts) == StripMarkers(fs[cur..])
    decreases |fs| - cur
  {
    if cur < |fs| {
      var nextC := IndexOf(fs, "%c", cur);
      if nextC == -1 {
        WalkTail(fs, args, cur, k);
        TailText(fs, cur);
        assert TextOf([Part(fs[cur..], None)]) == fs[cur..];
      } else {
        var end := SegmentEnd(fs, nextC + 2);
        var k' := NextArg(fs, args, nextC + 2, end, k);
        var lead := Lead(fs, cur, nextC);
        var seg := Seg(fs, args, nextC + 2, end, k);
        WalkStep(fs, args, cur, k, nextC, end, lead, seg, k');
        var rest := Walk(fs, args, end, k').parts;
        WalkText(fs, args, end, k');
        MarkerText(fs, args, cur, nextC, end, k);
        TextOfConcat(lead + seg, rest);
      }
    }
  }

  /** With no marker left, the rest of the format string is kept as it is. */
  lemma TailText(fs: string, cur: nat)
    requires cur <= |fs| && IndexOf(fs, "%c", cur) == -1
    ensures StripMarkers(fs[cur..]) == fs[cur..]
  {
    IndexOfSpec(fs, "%c", cur);
    StripNone(fs, cur);
  }

  /** The parts of one scan step spell the format string up to the segment's end without
      its marker. */
  lemma MarkerText(fs: string, args: seq<Value>, cur: nat, nextC: nat, end: nat, k: nat)
    requires cur < |fs| && nextC == IndexOf(fs, "%c", cur)
    requires nextC + 2 <= |fs| && end == SegmentEnd(fs, nextC + 2)
    ensures StripMarkers(fs[cur..]) == TextOf(Lead(fs, cur, nextC) + Seg(fs, args, nextC + 2, end, k)) + StripMarkers(fs[end..])
  {
    MarkerStrip(fs, cur, nextC, end);
    StepText(fs, args, cur, nextC, end, k);
  }

  lemma MarkerStrip(fs: string, cur: nat, nextC: nat, end: nat)
    requires cur < |fs| && nextC == IndexOf(fs, "%c", cur)
    requires nextC + 2 <= |fs| && end == SegmentEnd(fs, nextC + 2)
    ensures StripMarkers(fs[cur..]) == fs[cur..nextC] + fs[nextC + 2..end] + StripMarkers(fs[end..])
  {
    IndexOfSpec(fs, "%c", cur);
    SegmentEndSpec(fs, nextC + 2);
    StripAtMarker(fs, cur, nextC, end);
  }

  lemma StepText(fs: string, args: seq<Value>, cur: nat, nextC: nat, end: nat, k: nat)
    requires cur <= nextC && nextC + 2 <= end <= |fs|
    ensures TextOf(Lead(fs, cur, nextC) + Seg(fs, args, nextC + 2, end, k)) == fs[cur..nextC] + fs[nextC + 2..end]
  {
    var lead := Lead(fs, cur, nextC);
    var seg := Seg(fs, args, nextC + 2, end, k);
    TextOfConcat(lead, seg);
    assert TextOf(lead) == fs[cur..nextC];
    assert TextOf(seg) == fs[nextC + 2..end];
  }

  predicate TextsNonEmpty(ps: seq<Part>) {
    forall j :: 0 <= j < |ps| ==> ps[j].text != ""
  }

  /** Every part the scan produces has non-empty text. */
  lemma {:induction false} WalkPartsNonEmpty(fs: string, args: seq<Value>, cur: nat, k: nat)
    requires cur <= |fs|
    ensures TextsNonEmpty(Walk(fs, args, cur, k).parts)
    decreases |fs| - cur
  {
    if cur < |fs| && IndexOf(fs, "%c", cur) != -1 {
      var nextC := IndexOf(fs, "%c", cur);
      var end := SegmentEnd(fs, nextC + 2);
      var k' := NextArg(fs, args, nextC + 2, end, k);
      var lead := Lead(fs, cur, nextC);
      var seg := Seg(fs, args, nextC + 2, end, k);
      WalkStep(fs, args, cur, k, nextC, end, lead, seg, k');
      WalkPartsNonEmpty(fs, args, end, k');
      var rest := Walk(fs, args, end, k').parts;
      assert TextsNonEmpty(lead) && TextsNonEmpty(seg);
      forall j | 0 <= j < |lead + seg + rest|
        ensures (lead + seg + rest)[j].text != ""
      {
        if j >= |lead| + |seg| {
          assert (lead + seg + rest)[j] == rest[j - |lead| - |seg|];
        }
      }
    }
  }

  /** The styles a scan attaches are the style arguments from `k` on, in order: argument
      `k + i` is a string that passes the CSS heuristic and is the `i`-th style. */
  predicate StylesFrom(st: seq<string>, args: seq<Value>, k: nat) {
    forall i :: 0 <= i < |st| ==> StyleFor(args, k + i) == Some(st[i])
  }

  lemma StylesFromCons(x: string, st: seq<string>, args: seq<Value>, k: nat)
    requires StyleFor(args, k) == Some(x)
    requires StylesFrom(st, args, k + 1)
    ensures StylesFrom([x] + st, args, k)
  {
    forall i | 0 <= i < |[x] + st|
      ensures StyleFor(args, k + i) == Some(([x] + st)[i])
    {
      if i > 0 {
        assert ([x] + st)[i] == st[i - 1];
        assert StyleFor(args, k + 1 + (i - 1)) == Some(st[i - 1]);
      }
    }
  }

  /** The styles the scan attaches are the style arguments `k`, `k + 1`, ... taken in
      order, one per styled segment, each a string that passes the CSS heuristic; the scan
      ends with the index of the first argument it did not take. */
  lemma {:induction false} WalkStyles(fs: string, args: seq<Value>, cur: nat, k: nat)
    requires cur <= |fs|
    ensures k <= Walk(fs, args, cur, k).next
    ensures |Styles(Walk(fs, args, cur, k).parts)| == Walk(fs, args, cur, k).next - k
    ensures StylesFrom(Styles(Walk(fs, args, cur, k).parts), args, k)
    decreases |fs| - cur
  {
    if cur < |fs| {
      var nextC := IndexOf(fs, "%c", cur);
      if nextC == -1 {
        WalkTail(fs, args, cur, k);
        assert Styles([Part(fs[cur..], None)]) == [];
      } else {
        var end := SegmentEnd(fs, nextC + 2);
        var k' := NextArg(fs, args, nextC + 2, end, k);
        var lead := Lead(fs, cur, nextC);
        var seg := Seg(fs, args, nextC + 2, end, k);
        WalkStep(fs, args, cur, k, nextC, end, lead, seg, k');
        WalkStyles(fs, args, end, k');
        var rest := Walk(fs, args, end, k');
        StepStyles(fs, args, cur, nextC, end, k);
        StylesStep(lead, seg, rest.parts, args, k, k', rest.next);
      }
    }
  }

  /** The text before a marker is unstyled; the segment after it carries argument `k`'s
      style exactly when the scan moves on to argument `k + 1`. */
  lemma StepStyles(fs: string, args: seq<Value>, cur: nat, nextC: nat, end: nat, k: nat)
    requires cur <= nextC && nextC + 2 <= end <= |fs|
    ensures Styles(Lead(fs, cur, nextC)) == []
    ensures var k' := NextArg(fs, args, nextC + 2, end, k);
      Styles(Seg(fs, args, nextC + 2, end, k)) == if k' == k + 1 then [StyleFor(args, k).value] else []
  {
  }

  /** The styles of one scan step followed by the rest of the scan. */
  lemma StylesStep(lead: seq<Part>, seg: seq<Part>, rest: seq<Part>, args: seq<Value>, k: nat, k': nat, next: nat)
    requires Styles(lead) == []
    requires k' == k || (k' == k + 1 && StyleFor(args, k).Some?)
    requires Styles(seg) == if k' == k + 1 then [StyleFor(args, k).value] else []
    requires k' <= next && |Styles(rest)| == next - k' && StylesFrom(Styles(rest), args, k')
    ensures k <= next && |Styles(lead + seg + rest)| == next - k && StylesFrom(Styles(lead + seg + rest), args, k)
  {
    UnstyledLead(lead, seg, rest);
    StylesFromStep(Styles(seg), Styles(rest), args, k, k', next);
  }

  lemma UnstyledLead(lead: seq<Part>, seg: seq<Part>, rest: seq<Part>)
    requires Styles(lead) == []
    ensures Styles(lead + seg + rest) == Styles(seg) + Styles(rest)
  {
    StylesConcat(lead, seg);
    StylesConcat(lead + seg, rest);
    assert Styles(lead + seg) == Styles(seg) by {
      assert [] + Styles(seg) == Styles(seg);
    }
  }

  lemma StylesFromStep(first: seq<string>, st: seq<string>, args: seq<Value>, k: nat, k': nat, next: nat)
    requires k' == k || (k' == k + 1 && StyleFor(args, k).Some?)
    requires first == if k' == k + 1 then [StyleFor(args, k).value] else []
    requires k' <= next && |st| == next - k' && StylesFrom(st, args, k')
    ensures k <= next && |first + st| == next - k && StylesFrom(first + st, args, k)
  {
    if k' == k + 1 {
      StylesFromCons(StyleFor(args, k).value, st, args, k);
    } else {
      assert first + st == st;
    }
  }

  // ---------------------------------------------------------------------------------------
  // What the trailing-argument pass appends

  /** The non-empty texts, in order. */
  function NonEmpty(ts: seq<string>): (r: seq<string>)
    ensures |r| <= |ts|
  {
    if |ts| == 0 then [] else if ts[0] == "" then NonEmpty(ts[1..]) else [ts[0]] + NonEmpty(ts[1..])
  }

  /** The part a non-empty text becomes when it is appended after `prev` parts. */
  function Pushed(prev: seq<Part>, t: string): Part {
    Part(if |prev| > 0 && Adjacent(prev[|prev| - 1].text, t) then " " + t else t, None)
  }

  /** From position `base` on, `r` holds the parts the texts `ne` become, in order. */
  predicate AppendedAs(r: seq<Part>, base: nat, ne: seq<string>) {
    |r| == base + |ne| && forall i :: 0 <= i < |ne| ==> r[base + i] == Pushed(r[..base + i], ne[i])
  }

  lemma AppendedAsCons(r: seq<Part>, base: nat, t: string, ne: seq<string>)
    requires base < |r| && r[base] == Pushed(r[..base], t)
    requires AppendedAs(r, base + 1, ne)
    ensures AppendedAs(r, base, [t] + ne)
  {
    forall i | 0 <= i < |[t] + ne|
      ensures r[base + i] == Pushed(r[..base + i], ([t] + ne)[i])
    {
      if i > 0 {
        assert ([t] + ne)[i] == ne[i - 1];
        assert r[base + 1 + (i - 1)] == Pushed(r[..base + 1 + (i - 1)], ne[i - 1]);
      } else {
        assert ([t] + ne)[0] == t;
      }
    }
  }

  /** A non-empty text pushed onto `parts` and followed by the parts of later texts. */
  lemma PushedStep(parts: seq<Part>, t: string, p1: seq<Part>, r: seq<Part>, ne: seq<string>)
    requires t != "" && p1 == Push(parts, t)
    requires AppendedAs(r, |p1|, ne) && r[..|p1|] == p1
    ensures AppendedAs(r, |parts|, [t] + ne) && r[..|parts|] == parts
  {
    assert p1 == parts + [Pushed(parts, t)];
    assert r[..|parts|] == r[..|p1|][..|parts|];
    assert r[|parts|] == r[..|p1|][|parts|];
    AppendedAsCons(r, |parts|, t, ne);
  }

  /** Appending texts keeps the existing parts and adds one unstyled part for each non-empty
      text, in order; a text gets a leading space exactly when the part before it is a
      "label:" and the text opens a structure. */
  lemma {:induction false} PushAllParts(parts: seq<Part>, ts: seq<string>)
    ensures var r := PushAll(parts, ts);
      AppendedAs(r, |parts|, NonEmpty(ts)) && r[..|parts|] == parts
    decreases |ts|
  {
    if |ts| == 0 {
      assert PushAll(parts, ts) == parts;
    } else {
      var p1 := Push(parts, ts[0]);
      PushAllParts(p1, ts[1..]);
      var r := PushAll(parts, ts);
      assert r == PushAll(p1, ts[1..]);
      if ts[0] == "" {
        assert p1 == parts;
        assert NonEmpty(ts) == NonEmpty(ts[1..]);
      } else {
        PushedStep(parts, ts[0], p1, r, NonEmpty(ts[1..]));
        assert NonEmpty(ts) == [ts[0]] + NonEmpty(ts[1..]);
      }
    }
  }

  /** Kept indices are the arguments the trailing pass appends: they come in increasing order,
      each is kept, and every kept index from `i` on is among them. */
  lemma KeptIndicesExact(args: seq<Value>, k: nat, skipFirst: bool, i: nat)
    ensures var ks := KeptIndices(args, k, skipFirst, i);
      && (forall j :: 0 <= j < |ks| ==> i <= ks[j] < |args| && Kept(args, k, skipFirst, ks[j]))
      && (forall j, j' :: 0 <= j < j' < |ks| ==> ks[j] < ks[j'])
      && (forall m :: i <= m < |args| && Kept(args, k, skipFirst, m) ==> m in ks)
  {
    KeptIndicesSound(args, k, skipFirst, i);
    KeptIndicesComplete(args, k, skipFirst, i);
  }

  lemma {:induction false} KeptIndicesSound(args: seq<Value>, k: nat, skipFirst: bool, i: nat)
    ensures forall j :: 0 <= j < |KeptIndices(args, k, skipFirst, i)| ==>
      i <= KeptIndices(args, k, skipFirst, i)[j] < |args| && Kept(args, k, skipFirst, KeptIndices(args, k, skipFirst, i)[j])
    ensures forall j, j' :: 0 <= j < j' < |KeptIndices(args, k, skipFirst, i)| ==>
      KeptIndices(args, k, skipFirst, i)[j] < KeptIndices(args, k, skipFirst, i)[j']
    decreases |args| - i
  {
    if i < |args| {
      KeptIndicesSound(args, k, skipFirst, i + 1);
    }
  }

  lemma {:induction false} KeptIndicesComplete(args: seq<Value>, k: nat, skipFirst: bool, i: nat)
    ensures forall m :: i <= m < |args| && Kept(args, k, skipFirst, m) ==> m in KeptIndices(args, k, skipFirst, i)
    decreases |args| - i
  {
    if i < |args| {
      KeptIndicesComplete(args, k, skipFirst, i + 1);
    }
  }

  /** The texts the trailing pass appends are those of the kept arguments, in order. */
  lemma {:induction false} LeftoverSelection(h: Heap, args: seq<Value>, k: nat, skipFirst: bool, i: nat)
    requires Closed(h) && forall j :: 0 <= j < |args| ==> InHeap(h, args[j])
    ensures var ks := KeptIndices(args, k, skipFirst, i);
      var ts := LeftoverTexts(h, args, k, skipFirst, i);
      && |ts| == |ks|
      && forall j :: 0 <= j < |ts| ==> ks[j] < |args| && ts[j] == ValueText(h, args[ks[j]])
    decreases |args| - i
  {
    if i < |args| {
      LeftoverSelection(h, args, k, skipFirst, i + 1);
      KeptIndicesExact(args, k, skipFirst, i + 1);
    }
  }

  /** A style argument the scan consumed is never appended again, and a string that passes
      the CSS heuristic is never appended as text. */
  lemma ConsumedNotKept(args: seq<Value>, k: nat, skipFirst: bool, i: nat)
    requires i < |args|
    requires (1 <= i < k) || (args[i].Str? && IsStyleString(args[i].s))
    ensures i !in KeptIndices(args, k, skipFirst, 0)
  {
    KeptIndicesExact(args, k, skipFirst, 0);
  }

  /** Only a format string in first position is skipped by the trailing pass: one found
      further on that does not look like CSS is appended once more, as plain text. */
  lemma FormatStringRepeated(h: Heap, args: seq<Value>, f: nat, fs: string, next: nat)
    requires Closed(h) && forall j :: 0 <= j < |args| ==> InHeap(h, args[j])
    requires FindFormat(args, 0) == Some(f) && f > 0 && args[f] == Str(fs)
    requires !IsStyleString(fs) && next == Walk(fs, args, 0, 1).next
    ensures fs in LeftoverTexts(h, args, next, args[0] == Str(fs), 0)
  {
    WalkStyles(fs, args, 0, 1);
    var st := Styles(Walk(fs, args, 0, 1).parts);
    assert |st| == next - 1 && StylesFrom(st, args, 1);
    StylesTaken(st, args, next, f);
    KeptText(h, args, next, args[0] == Str(fs), f);
    assert ValueText(h, args[f]) == fs;
  }

  /** The arguments from 1 up to where the scan stopped were all taken as styles. */
  lemma StylesTaken(st: seq<string>, args: seq<Value>, next: nat, f: nat)
    requires |st| == next - 1 && StylesFrom(st, args, 1)
    requires StyleFor(args, f).None?
    ensures f == 0 || next <= f
  {
    forall i | 1 <= i < next ensures StyleFor(args, i).Some? {
      assert StyleFor(args, 1 + (i - 1)) == Some(st[i - 1]);
    }
  }

  /** A kept argument's text is among those the trailing pass appends. */
  lemma KeptText(h: Heap, args: seq<Value>, k: nat, skipFirst: bool, f: nat)
    requires Closed(h) && forall j :: 0 <= j < |args| ==> InHeap(h, args[j])
    requires f < |args| && Kept(args, k, skipFirst, f)
    ensures ValueText(h, args[f]) in LeftoverTexts(h, args, k, skipFirst, 0)
  {
    KeptIndicesExact(args, k, skipFirst, 0);
    var ks := KeptIndices(args, k, skipFirst, 0);
    var j :| 0 <= j < |ks| && ks[j] == f;
    LeftoverSelection(h, args, k, skipFirst, 0);
    assert LeftoverTexts(h, args, k, skipFirst, 0)[j] == ValueText(h, args[f]);
  }

  /** The `%c` scan of `formatMessage`: the parts built from the format string, the next
      style argument index and the set of consumed style argument indices. */
  method ScanFormatString(fs: string, args: seq<Value>) returns (parts: seq<Part>, styleArgIndex: nat, consumedStyleArgs: set<nat>)
    ensures Walked(parts, styleArgIndex) == Walk(fs, args, 0, 1)
    ensures consumedStyleArgs == IndexRange(1, styleArgIndex)
  {
    parts, styleArgIndex, consumedStyleArgs := [], 1, {};
    assert IndexRange(1, 1) == {};
    ghost var w := Walk(fs, args, 0, 1);
    var currentIndex: nat := 0;
    while currentIndex < |fs|
      invariant currentIndex <= |fs|
      invariant 1 <= styleArgIndex
      invariant consumedStyleArgs == IndexRange(1, styleArgIndex)
      invariant w.parts == parts + Walk(fs, args, currentIndex, styleArgIndex).parts
      invariant w.next == Walk(fs, args, currentIndex, styleArgIndex).next
      decreases |fs| - currentIndex
    {
      currentIndex, parts, styleArgIndex, consumedStyleArgs := ScanStep(fs, args, currentIndex, parts, styleArgIndex, consumedStyleArgs);
    }
  }

  /** Pushing the texts one after another, the first one first. */
  lemma PushAllStep(parts: seq<Part>, t: string, ts: seq<string>)
    ensures PushAll(parts, [t] + ts) == PushAll(Push(parts, t), ts)
  {
    assert ([t] + ts)[1..] == ts;
  }

  /** One turn of the trailing-argument loop: argument `i` is appended exactly when it is kept. */
  method AppendLeftover(h: Heap, args: seq<Value>, fs: string, consumedStyleArgs: set<nat>, ghost k: nat,
                        ghost skipFirst: bool, parts: seq<Part>, i: nat) returns (parts': seq<Part>)
    requires Closed(h) && forall j :: 0 <= j < |args| ==> InHeap(h, args[j])
    requires consumedStyleArgs == IndexRange(1, k) && i < |args|
    requires skipFirst == (args[0] == Str(fs))
    ensures PushAll(parts', LeftoverTexts(h, args, k, skipFirst, i + 1)) == PushAll(parts, LeftoverTexts(h, args, k, skipFirst, i))
  {
    ghost var rest := LeftoverTexts(h, args, k, skipFirst, i + 1);
    parts' := parts;
    if i !in consumedStyleArgs && !(i == 0 && args[i] == Str(fs)) {
      var arg := args[i];
      if arg.Ref? {
        parts' := Push(parts, SafeStringify(h, arg, 0));
      } else if arg.Str? {
        if !IsStyleString(arg.s) {
          parts' := Push(parts, arg.s);
        }
      } else {
        parts' := Push(parts, ToJsString(h, arg));
      }
    }
    assert (i !in consumedStyleArgs) == !(1 <= i < k);
    assert (i == 0 && args[i] == Str(fs)) == (i == 0 && skipFirst);
    if Kept(args, k, skipFirst, i) {
      assert parts' == Push(parts, ValueText(h, args[i]));
      assert LeftoverTexts(h, args, k, skipFirst, i) == [ValueText(h, args[i])] + rest;
      PushAllStep(parts, ValueText(h, args[i]), rest);
    } else {
      assert parts' == parts;
      assert LeftoverTexts(h, args, k, skipFirst, i) == rest;
    }
  }

  /** The trailing-argument loop of `formatMessage` on the `%c` path. */
  method AppendLeftovers(h: Heap, args: seq<Value>, fs: string, consumedStyleArgs: set<nat>, ghost k: nat, parts0: seq<Part>)
    returns (parts: seq<Part>)
    requires Closed(h) && forall j :: 0 <= j < |args| ==> InHeap(h, args[j])
    requires consumedStyleArgs == IndexRange(1, k)
    ensures parts == PushAll(parts0, LeftoverTexts(h, args, k, |args| > 0 && args[0] == Str(fs), 0))
  {
    ghost var skipFirst := |args| > 0 && args[0] == Str(fs);
    ghost var target := PushAll(parts0, LeftoverTexts(h, args, k, skipFirst, 0));
    parts := parts0;
    var i := 0;
    while i < |args|
      invariant 0 <= i <= |args|
      invariant PushAll(parts, LeftoverTexts(h, args, k, skipFirst, i)) == target
    {
      parts := AppendLeftover(h, args, fs, consumedStyleArgs, k, skipFirst, parts, i);
      i := i + 1;
    }
  }

  /** The loop of `formatMessage` when no argument holds `%c`. */
  method AppendAll(h: Heap, args: seq<Value>) returns (parts: seq<Part>)
    requires Closed(h) && forall j :: 0 <= j < |args| ==> InHeap(h, args[j])
    ensures parts == PushAll([], PlainTexts(h, args))
  {
    ghost var texts := PlainTexts(h, args);
    parts := [];
    var i := 0;
    while i < |args|
      invariant 0 <= i <= |args|
      invariant PushAll(parts, texts[i..]) == PushAll([], texts)
    {
      var arg := args[i];
      var textToAdd := if arg.Ref? then SafeStringify(h, arg, 0) else ToJsString(h, arg);
      assert texts[i..][0] == textToAdd && texts[i..][1..] == texts[i + 1..];
      parts := Push(parts, textToAdd);
      i := i + 1;
    }
  }

  /** `formatMessage(args)`. */
  method FormatMessage(h: Heap, args: seq<Value>) returns (m: Message)
    requires Closed(h) && forall j :: 0 <= j < |args| ==> InHeap(h, args[j])
    ensures m == FormatSpec(h, args)
  {
    if |args| == 0 {
      return Message([], false);
    }
    var formatString: Option<string> := None;
    var i := 0;
    while i < |args|
      invariant 0 <= i <= |args|
      invariant FindFormat(args, 0) == FindFormat(args, i)
    {
      if args[i].Str? && Contains(args[i].s, "%c") {
        formatString := Some(args[i].s);
        break;
      }
      i := i + 1;
    }

    if formatString.Some? {
      var fs := formatString.value;
      assert FindFormat(args, 0) == Some(i) && fs == args[i].s;
      var parts, styleArgIndex, consumedStyleArgs := ScanFormatString(fs, args);
      parts := AppendLeftovers(h, args, fs, consumedStyleArgs, styleArgIndex, parts);
      if |parts| > 0 {
        return Message(parts, AnyStyled(parts));
      }
      return Message(parts, false);
    } else {
      var parts := AppendAll(h, args);
      return Message(parts, false);
    }
  }
}
