/** The main-thread side of the pikchr fiddle (fiddle/fiddle.js): the `PikchrFiddle` object
    with its worker-message handler registry, its render mode and auto-scale setting, and the
    page state its handlers drive (the render button and the output element). */
module Fiddle {
  import opened Options
  import opened CText
  import opened JsText
  import opened MsgRegistry

  /** The handlers fiddle.js registers, as opaque identities; `Callback` stands for any other. */
  datatype Handler =
    | ConsoleLog      // 'stdout'
    | ConsoleError    // 'stderr'
    | ModuleStatus    // 'module'
    | FiddleReady     // 'fiddle-ready'
    | PikchrOutput    // 'pikchr'
    | WorkingState    // 'working'
    | Callback(id: nat)

  /** A message `wMsg` posts to the worker. */
  datatype WorkerMsg = WorkerMsg(msgType: string, data: string)

  /** The inline width and height of the output element: unset (null), or taken from the
      third and fourth fields of the SVG's viewBox. */
  datatype Size = NoSize | ViewBoxSize(width: string, height: string)

  /** The output element: the pikchr source it shows (its `data-pikchr`, "" when unset), its
      `error` and `text` classes, its HTML content and its inline size. */
  datatype Output = Output(pikchr: string, isError: bool, isText: bool, html: string, size: Size)

  /** What `:scope > svg` finds in the new output: no SVG, or an SVG whose viewBox attribute
      is present or missing. */
  datatype Svg = NoSvg | SvgElement(viewBox: Option<string>)

  /** The data of a 'pikchr' message from the worker. */
  datatype PikchrReply = PikchrReply(result: string, pikchr: string, isError: bool)

  /** The two render modes, in the order the toggle cycles through them. */
  const RenderModes: seq<string> := ["text", "html"]

  /** `xs.indexOf(x)`: the first position of `x`, or -1. */
  function IndexOf(xs: seq<string>, x: string): (r: int)
    ensures -1 <= r < |xs|
    ensures r == -1 <==> x !in xs
    ensures r >= 0 ==> xs[r] == x && x !in xs[..r]
  {
    if xs == [] then -1
    else if xs[0] == x then 0
    else
      var k := IndexOf(xs[1..], x);
      assert xs[1..][..if k < 0 then 0 else k] == xs[1..1 + if k < 0 then 0 else k];
      if k < 0 then -1 else k + 1
  }

  /** The mode the render-mode button switches to (fiddle/fiddle.js:251-255). */
  function NextRenderMode(mode: string): (r: string)
    ensures r in RenderModes
  {
    var ndx := IndexOf(RenderModes, mode) + 1;
    RenderModes[if ndx >= |RenderModes| then 0 else ndx]
  }

  /** The toggle maps 'text' to 'html', 'html' to 'text', and any other mode to 'text'; on the
      two modes it is its own inverse. */
  lemma RenderModeCycle(mode: string)
    ensures NextRenderMode("text") == "html" && NextRenderMode("html") == "text"
    ensures mode !in RenderModes ==> NextRenderMode(mode) == "text"
    ensures mode in RenderModes ==> NextRenderMode(NextRenderMode(mode)) == mode
  {
  }

  /** `s.substring(a, b)`: both ends clamped to the string, swapped when out of order. */
  function Substring(s: string, a: int, b: int): (r: string)
    ensures |r| <= |s|
  {
    var a' := if a < 0 then 0 else if a > |s| then |s| else a;
    var b' := if b < 0 then 0 else if b > |s| then |s| else b;
    if a' <= b' then s[a'..b'] else s[b'..a']
  }

  /** The text the render button considers: the selection when there is one, else the input. */
  function Selected(value: string, selStart: int, selEnd: int): string
  {
    if selStart < selEnd then Substring(value, selStart, selEnd) else value
  }

  /** The text the render button sends (fiddle/fiddle.js:176-180). */
  function RenderText(value: string, selStart: int, selEnd: int): (r: string)
    ensures r == [] || (!IsJsSpace(r[0]) && !IsJsSpace(r[|r| - 1]))
  {
    Trim(Selected(value, selStart, selEnd))
  }

  /** Nothing is sent exactly when the text considered is all white space. */
  lemma RenderTextBlank(value: string, selStart: int, selEnd: int)
    ensures RenderText(value, selStart, selEnd) == [] <==> AllSpace(Selected(value, selStart, selEnd))
  {
    TrimEmpty(Selected(value, selStart, selEnd));
  }

  /** With a selection inside the input, what is sent is the selection trimmed, which is a
      piece of the input inside the selection (`JsText.TrimOfSlice`). */
  lemma RenderTextOfSelection(value: string, selStart: int, selEnd: int)
    requires 0 <= selStart < selEnd <= |value|
    ensures RenderText(value, selStart, selEnd) == Trim(value[selStart..selEnd])
  {
    assert Selected(value, selStart, selEnd) == value[selStart..selEnd];
  }

  /** Without a selection, what is sent is the input with its surrounding white space dropped. */
  lemma RenderTextWholeInput(value: string, selStart: int, selEnd: int)
    requires selEnd <= selStart
    ensures var r := RenderText(value, selStart, selEnd);
      var lo := TrimOffset(value);
      lo + |r| <= |value| && r == value[lo..lo + |r|] &&
      AllSpace(value[..lo]) && AllSpace(value[lo + |r|..])
  {
    TrimIsPiece(value);
    TrimDropsSpace(value);
  }

  /** The outcome of sizing the output as fiddle/fiddle.js:234-245 is written: a size, or the
      TypeError thrown by calling `split` on the null a missing viewBox attribute yields. */
  datatype SizeOutcome = Sized(size: Size) | TypeError

  /** The size decision as written: `getAttribute('viewBox')` is split without a null check. */
  function OutputSizeAsWritten(autoScale: bool, isError: bool, mode: string, svg: Svg): SizeOutcome
  {
    if !autoScale && !isError && mode == "html" then
      match svg
      case NoSvg => Sized(NoSize)
      case SvgElement(None) => TypeError
      case SvgElement(Some(vb)) =>
        var parts := Split(vb, ' ');
        if |parts| == 4 then Sized(ViewBoxSize(parts[2], parts[3])) else Sized(NoSize)
    else Sized(NoSize)
  }

  /** The corrected size decision: an SVG without a viewBox, like one whose viewBox does not
      split into four fields, leaves the size unset (the case the warning of
      fiddle/fiddle.js:242-244 is evidently meant for). */
  function OutputSize(autoScale: bool, isError: bool, mode: string, svg: Svg): Size
  {
    if !autoScale && !isError && mode == "html" && svg.SvgElement? && svg.viewBox.Some? then
      var parts := Split(svg.viewBox.value, ' ');
      if |parts| == 4 then ViewBoxSize(parts[2], parts[3]) else NoSize
    else NoSize
  }

  /** The output gets a size exactly when auto-scale is off, the result is no error, the mode
      is 'html' and the SVG has a viewBox of four space-separated fields (three spaces); the
      size is then the third and fourth of those fields. */
  lemma OutputSizeSet(autoScale: bool, isError: bool, mode: string, svg: Svg)
    ensures OutputSize(autoScale, isError, mode, svg) != NoSize <==>
      !autoScale && !isError && mode == "html" && svg.SvgElement? && svg.viewBox.Some? &&
      Count(svg.viewBox.value, ' ') == 3
    ensures OutputSize(autoScale, isError, mode, svg).ViewBoxSize? ==>
      Join(Split(svg.viewBox.value, ' '), ' ') == svg.viewBox.value &&
      OutputSize(autoScale, isError, mode, svg) ==
        ViewBoxSize(Split(svg.viewBox.value, ' ')[2], Split(svg.viewBox.value, ' ')[3])
  {
    if svg.SvgElement? && svg.viewBox.Some? {
      SplitCount(svg.viewBox.value, ' ');
      SplitJoin(svg.viewBox.value, ' ');
    }
  }

  /** The code as written throws exactly when the corrected decision meets an SVG without a
      viewBox under the sizing conditions; otherwise the two agree. */
  lemma OutputSizeAsWrittenAgrees(autoScale: bool, isError: bool, mode: string, svg: Svg)
    ensures OutputSizeAsWritten(autoScale, isError, mode, svg) == TypeError <==>
      !autoScale && !isError && mode == "html" && svg == SvgElement(None)
    ensures OutputSizeAsWritten(autoScale, isError, mode, svg) != TypeError ==>
      OutputSizeAsWritten(autoScale, isError, mode, svg) == Sized(OutputSize(autoScale, isError, mode, svg))
  {
  }

  /** A rendered SVG without a viewBox, in 'html' mode with auto-scale off: the handler throws
      before it reaches the warning meant for that case, and the size keeps its old value. */
  lemma MissingViewBoxThrows()
    ensures OutputSizeAsWritten(false, false, "html", SvgElement(None)) == TypeError
    ensures OutputSize(false, false, "html", SvgElement(None)) == NoSize
  {
  }

  /** An event that moves the render button between enabled and disabled. */
  datatype ButtonEvent = RenderIssued | Working(data: string)

  /** The button after one event: a render disables it (fiddle/fiddle.js:202), a 'working'
      message with data 'end' enables it (:266-267), any other 'working' message leaves it. */
  function ButtonStep(enabled: bool, ev: ButtonEvent): bool
  {
    match ev
    case RenderIssued => false
    case Working(d) => enabled || d == "end"
  }

  /** The button after a sequence of events. */
  function ButtonAfter(enabled: bool, evs: seq<ButtonEvent>): bool
  {
    if evs == [] then enabled else ButtonStep(ButtonAfter(enabled, evs[..|evs| - 1]), evs[|evs| - 1])
  }

  /** Some 'end' message arrives at or after position `i`. */
  ghost predicate EndFrom(evs: seq<ButtonEvent>, i: int)
  {
    exists j :: i <= j < |evs| && 0 <= j && evs[j] == Working("end")
  }

  /** The button is disabled after a sequence of events exactly when some render has no 'end'
      after it, or it started disabled and no 'end' came at all. */
  lemma {:induction false} ButtonAfterEvents(enabled: bool, evs: seq<ButtonEvent>)
    ensures !ButtonAfter(enabled, evs) <==>
      (exists i :: 0 <= i < |evs| && evs[i] == RenderIssued && !EndFrom(evs, i + 1)) ||
      (!enabled && !EndFrom(evs, 0))
  {
    if evs != [] {
      var init, ev := evs[..|evs| - 1], evs[|evs| - 1];
      ButtonAfterEvents(enabled, init);
      assert forall j :: 0 <= j < |init| ==> init[j] == evs[j];
      if ev == Working("end") {
        assert forall i :: 0 <= i < |evs| ==> EndFrom(evs, i) by {
          forall i | 0 <= i < |evs| ensures EndFrom(evs, i) {
            assert evs[|evs| - 1] == Working("end");
          }
        }
      } else {
        forall i | 0 <= i ensures EndFrom(evs, i) <==> EndFrom(init, i) {
          if EndFrom(evs, i) {
            var j :| i <= j < |evs| && 0 <= j && evs[j] == Working("end");
            assert init[j] == evs[j];
          }
          if EndFrom(init, i) {
            var j :| i <= j < |init| && 0 <= j && init[j] == Working("end");
            assert evs[j] == init[j];
          }
        }
        if ev == RenderIssued {
          assert !EndFrom(evs, |evs|);
        }
      }
    }
  }

  /** Whether a click on the render button renders: the button is enabled (a disabled one
      receives no click) and the text it would send is not blank. */
  predicate ClickRenders(enabled: bool, value: string, selStart: int, selEnd: int)
  {
    enabled && RenderText(value, selStart, selEnd) != []
  }

  /** The `PikchrFiddle` object: `_msgMap`, `renderMode` and `config.renderAutoScale`
      (fiddle/fiddle.js:29-47), with the render button's state, whether `preStartWork` has
      saved the button's label (`preStartWork._`, fiddle/fiddle.js:193-200), the output
      element and the messages posted to the worker. */
  class PikchrFiddle {
    var msgMap: map<string, seq<Handler>>
    var renderMode: string
    var renderAutoScale: bool
    var renderEnabled: bool
    var preStarted: bool
    var output: Output
    var posted: seq<WorkerMsg>

    /** Every registered type has a handler, the mode is one the toggle produces, and the
        button can only be disabled once `preStartWork` has run and saved its label. */
    ghost predicate Valid()
      reads this
    {
      NoEmptyLists(msgMap) && renderMode in RenderModes && (preStarted || renderEnabled)
    }

    /** The object as fiddle/fiddle.js:29-47 creates it: no handler registered yet. */
    constructor()
      ensures Valid()
      ensures msgMap == map[]
      ensures renderMode == "html" && !renderAutoScale && renderEnabled && !preStarted
      ensures output == Output("", false, false, "", NoSize) && posted == []
    {
      msgMap := map[];
      renderMode := "html";
      renderAutoScale := false;
      renderEnabled := true;
      preStarted := false;
      output := Output("", false, false, "", NoSize);
      posted := [];
    }

    /** The registrations the script makes once the object exists: 'stdout' and 'stderr'
        (fiddle/fiddle.js:85-86), 'module' (:100) and 'fiddle-ready' (:144). */
    method RegisterStartupHandlers()
      requires Valid()
      modifies this
      ensures Valid()
      ensures msgMap == StartupRegistry(old(msgMap))
      ensures renderMode == old(renderMode) && renderAutoScale == old(renderAutoScale)
      ensures renderEnabled == old(renderEnabled) && preStarted == old(preStarted)
      ensures output == old(output) && posted == old(posted)
    {
      AddMsgHandler(Name("stdout"), ConsoleLog);
      AddMsgHandler(Name("stderr"), ConsoleError);
      AddMsgHandler(Name("module"), ModuleStatus);
      AddMsgHandler(Name("fiddle-ready"), FiddleReady);
    }

    /** `addMsgHandler(type, callback)` (fiddle/fiddle.js:50-59). */
    method AddMsgHandler(mt: MsgType, cb: Handler)
      requires Valid()
      modifies this
      ensures Valid()
      ensures msgMap == Registered(old(msgMap), mt, cb)
      ensures renderMode == old(renderMode) && renderAutoScale == old(renderAutoScale)
      ensures renderEnabled == old(renderEnabled) && preStarted == old(preStarted)
      ensures output == old(output) && posted == old(posted)
      decreases mt
    {
      match mt {
        case Name(t) =>
          if t !in msgMap {
            msgMap := msgMap[t := []];
          }
          msgMap := msgMap[t := msgMap[t] + [cb]];
        case Names(ts) =>
          var k := 0;
          while k < |ts|
            invariant 0 <= k <= |ts|
            invariant Valid()
            invariant msgMap == RegisteredFirst(old(msgMap), mt, k, cb)
            invariant renderMode == old(renderMode) && renderAutoScale == old(renderAutoScale)
            invariant renderEnabled == old(renderEnabled) && preStarted == old(preStarted)
            invariant output == old(output) && posted == old(posted)
          {
            AddMsgHandler(ts[k], cb);
            k := k + 1;
          }
      }
    }

    /** `runMsgHandlers(msg)` (fiddle/fiddle.js:61-70): whether a list exists for the type, and
        the handlers invoked, in order. */
    method RunMsgHandlers(msgType: string) returns (handled: bool, invoked: seq<Handler>)
      requires Valid()
      ensures handled <==> msgType in msgMap
      ensures handled <==> invoked != []
      ensures invoked == HandlersOf(msgMap, msgType)
    {
      if msgType !in msgMap {
        return false, [];
      }
      var list := msgMap[msgType];
      invoked := [];
      for i := 0 to |list|
        invariant invoked == list[..i]
      {
        invoked := invoked + [list[i]];
      }
      assert list[..|list|] == list;
      handled := true;
    }

    /** `clearMsgHandlers(type)` (fiddle/fiddle.js:72-75). */
    method ClearMsgHandlers(t: string)
      requires Valid()
      modifies this
      ensures Valid()
      ensures msgMap == Cleared(old(msgMap), t)
      ensures renderMode == old(renderMode) && renderAutoScale == old(renderAutoScale)
      ensures renderEnabled == old(renderEnabled) && preStarted == old(preStarted)
      ensures output == old(output) && posted == old(posted)
    {
      msgMap := msgMap - {t};
    }

    /** `wMsg(type, data)` (fiddle/fiddle.js:77-80): the message is posted to the worker. */
    method WMsg(msgType: string, data: string)
      requires Valid()
      modifies this
      ensures Valid()
      ensures posted == old(posted) + [WorkerMsg(msgType, data)]
      ensures msgMap == old(msgMap) && renderMode == old(renderMode)
      ensures renderAutoScale == old(renderAutoScale) && renderEnabled == old(renderEnabled)
      ensures preStarted == old(preStarted) && output == old(output)
    {
      posted := posted + [WorkerMsg(msgType, data)];
    }

    /** `render(txt)` with `preStartWork` (fiddle/fiddle.js:192-211): the button's label is
        saved (once), the button is disabled and the text is sent to the worker as a 'pikchr'
        message. */
    method Render(txt: string)
      requires Valid()
      modifies this
      ensures Valid()
      ensures renderEnabled == ButtonStep(old(renderEnabled), RenderIssued) && preStarted
      ensures posted == old(posted) + [WorkerMsg("pikchr", txt)]
      ensures msgMap == old(msgMap) && renderMode == old(renderMode)
      ensures renderAutoScale == old(renderAutoScale) && output == old(output)
    {
      preStarted := true;
      renderEnabled := false;
      WMsg("pikchr", txt);
    }

    /** A click on the render button, by the user, by the keyboard shortcut or at load. A
        disabled button receives no click; an enabled one runs the handler of
        fiddle/fiddle.js:173-182, which renders the text unless it is blank. */
    method ClickRender(value: string, selStart: int, selEnd: int)
      requires Valid()
      modifies this
      ensures Valid()
      ensures ClickRenders(old(renderEnabled), value, selStart, selEnd) ==>
        !renderEnabled && preStarted &&
        posted == old(posted) + [WorkerMsg("pikchr", RenderText(value, selStart, selEnd))]
      ensures !ClickRenders(old(renderEnabled), value, selStart, selEnd) ==>
        renderEnabled == old(renderEnabled) && preStarted == old(preStarted) && posted == old(posted)
      ensures msgMap == old(msgMap) && renderMode == old(renderMode)
      ensures renderAutoScale == old(renderAutoScale) && output == old(output)
    {
      if renderEnabled {
        var text := Trim(Selected(value, selStart, selEnd));
        if text != [] {
          Render(text);
        }
      }
    }

    /** The input's keydown handler (fiddle/fiddle.js:164-170): Ctrl-Enter and Shift-Enter
        click the render button; any other key is left to the textarea. */
    method KeyDown(ctrlKey: bool, shiftKey: bool, keyCode: int, value: string, selStart: int, selEnd: int)
      requires Valid()
      modifies this
      ensures Valid()
      ensures (ctrlKey || shiftKey) && keyCode == 13 && ClickRenders(old(renderEnabled), value, selStart, selEnd) ==>
        !renderEnabled && preStarted &&
        posted == old(posted) + [WorkerMsg("pikchr", RenderText(value, selStart, selEnd))]
      ensures !((ctrlKey || shiftKey) && keyCode == 13 && ClickRenders(old(renderEnabled), value, selStart, selEnd)) ==>
        renderEnabled == old(renderEnabled) && preStarted == old(preStarted) && posted == old(posted)
      ensures msgMap == old(msgMap) && renderMode == old(renderMode)
      ensures renderAutoScale == old(renderAutoScale) && output == old(output)
    {
      if (ctrlKey || shiftKey) && 13 == keyCode {
        ClickRender(value, selStart, selEnd);
      }
    }

    /** The 'pikchr' message handler (fiddle/fiddle.js:215-248), with the corrected size
        decision; `svg` is what `:scope > svg` finds in the new content. */
    method OnPikchr(m: PikchrReply, svg: Svg)
      requires Valid()
      modifies this
      ensures Valid()
      ensures output.pikchr == m.pikchr && output.isError == m.isError
      ensures output.isText == (old(renderMode) == "text")
      ensures output.html == if old(renderMode) == "text" then "<textarea>" + m.result + "</textarea>" else m.result
      ensures output.size == OutputSize(old(renderAutoScale), m.isError, old(renderMode), svg)
      ensures msgMap == old(msgMap) && renderMode == old(renderMode) && renderAutoScale == old(renderAutoScale)
      ensures renderEnabled == old(renderEnabled) && preStarted == old(preStarted) && posted == old(posted)
    {
      var content;
      var isText;
      if renderMode == "text" {
        content := "<textarea>" + m.result + "</textarea>";
        isText := true;
      } else {
        content := m.result;
        isText := false;
      }
      var size := NoSize;
      if !renderAutoScale && !m.isError && "html" == renderMode {
        if svg.SvgElement? && svg.viewBox.Some? {
          var vb := Split(svg.viewBox.value, ' ');
          if |vb| == 4 {
            size := ViewBoxSize(vb[2], vb[3]);
          }
        }
      }
      output := Output(m.pikchr, m.isError, isText, content, size);
    }

    /** The render-mode button's click handler (fiddle/fiddle.js:250-259): the mode cycles and
        the shown pikchr, if any, is rendered again. */
    method ClickRenderMode()
      requires Valid()
      modifies this
      ensures Valid()
      ensures renderMode == NextRenderMode(old(renderMode)) && renderMode != old(renderMode)
      ensures old(output.pikchr) != [] ==>
        !renderEnabled && preStarted && posted == old(posted) + [WorkerMsg("pikchr", old(output.pikchr))]
      ensures old(output.pikchr) == [] ==>
        renderEnabled == old(renderEnabled) && preStarted == old(preStarted) && posted == old(posted)
      ensures msgMap == old(msgMap) && renderAutoScale == old(renderAutoScale) && output == old(output)
    {
      var ndx := IndexOf(RenderModes, renderMode) + 1;
      if ndx >= |RenderModes| {
        ndx := 0;
      }
      renderMode := RenderModes[ndx];
      if output.pikchr != [] {
        Render(output.pikchr);
      }
    }

    /** The 'working' message handler (fiddle/fiddle.js:261-271). An 'end' restores the saved
        label and enables the button; before any render there is no saved label, reading it
        at :266 throws, and the button stays as it is. */
    method OnWorking(data: string)
      requires Valid()
      modifies this
      ensures Valid()
      ensures renderEnabled == (old(renderEnabled) || (data == "end" && old(preStarted)))
      ensures renderEnabled == ButtonStep(old(renderEnabled), Working(data))
      ensures msgMap == old(msgMap) && renderMode == old(renderMode) && renderAutoScale == old(renderAutoScale)
      ensures preStarted == old(preStarted) && output == old(output) && posted == old(posted)
    {
      if data == "start" {
        return;
      } else if data == "end" {
        if !preStarted {
          return;
        }
        renderEnabled := true;
        return;
      }
    }

    /** The auto-scale checkbox's change handlers (fiddle/fiddle.js:299-301, 303-309): the
        setting takes the checkbox's value, then the shown pikchr is rendered again in 'html'
        mode. */
    method OnAutoScaleChanged(checked: bool)
      requires Valid()
      modifies this
      ensures Valid()
      ensures renderAutoScale == checked
      ensures old(renderMode) == "html" && old(output.pikchr) != [] ==>
        !renderEnabled && preStarted && posted == old(posted) + [WorkerMsg("pikchr", old(output.pikchr))]
      ensures !(old(renderMode) == "html" && old(output.pikchr) != []) ==>
        renderEnabled == old(renderEnabled) && preStarted == old(preStarted) && posted == old(posted)
      ensures msgMap == old(msgMap) && renderMode == old(renderMode) && output == old(output)
    {
      renderAutoScale := checked;
      if "html" == renderMode && output.pikchr != [] {
        Render(output.pikchr);
      }
    }

    /** `cmdClick` (fiddle/fiddle.js:312): a button's `data-cmd` text is rendered as it is. */
    method CmdClick(cmd: string)
      requires Valid()
      modifies this
      ensures Valid()
      ensures !renderEnabled && preStarted && posted == old(posted) + [WorkerMsg("pikchr", cmd)]
      ensures msgMap == old(msgMap) && renderMode == old(renderMode)
      ensures renderAutoScale == old(renderAutoScale) && output == old(output)
    {
      Render(cmd);
    }

    /** `onPFLoaded` (fiddle/fiddle.js:154-466) as far as the model's state goes: the 'pikchr'
        and 'working' handlers are registered (:215, :261), then the render button is clicked
        (:395) with the input's text and selection as they stand. */
    method OnLoaded(value: string, selStart: int, selEnd: int)
      requires Valid()
      modifies this
      ensures Valid()
      ensures msgMap == Pushed(Pushed(old(msgMap), "pikchr", PikchrOutput), "working", WorkingState)
      ensures ClickRenders(old(renderEnabled), value, selStart, selEnd) ==>
        !renderEnabled && preStarted &&
        posted == old(posted) + [WorkerMsg("pikchr", RenderText(value, selStart, selEnd))]
      ensures !ClickRenders(old(renderEnabled), value, selStart, selEnd) ==>
        renderEnabled == old(renderEnabled) && preStarted == old(preStarted) && posted == old(posted)
      ensures renderMode == old(renderMode) && renderAutoScale == old(renderAutoScale) && output == old(output)
    {
      AddMsgHandler(Name("pikchr"), PikchrOutput);
      AddMsgHandler(Name("working"), WorkingState);
      ClickRender(value, selStart, selEnd);
    }

    /** The 'fiddle-ready' handler (fiddle/fiddle.js:144-147): it removes every 'fiddle-ready'
        handler, itself included, then finishes loading, which renders the input's text. */
    method OnFiddleReady(value: string, selStart: int, selEnd: int)
      requires Valid()
      modifies this
      ensures Valid()
      ensures msgMap == AfterFiddleReady(old(msgMap))
      ensures ClickRenders(old(renderEnabled), value, selStart, selEnd) ==>
        !renderEnabled && preStarted &&
        posted == old(posted) + [WorkerMsg("pikchr", RenderText(value, selStart, selEnd))]
      ensures !ClickRenders(old(renderEnabled), value, selStart, selEnd) ==>
        renderEnabled == old(renderEnabled) && preStarted == old(preStarted) && posted == old(posted)
      ensures renderMode == old(renderMode) && renderAutoScale == old(renderAutoScale) && output == old(output)
    {
      ClearMsgHandlers("fiddle-ready");
      OnLoaded(value, selStart, selEnd);
    }
  }

  /** The registry after the script's own registrations. */
  function StartupRegistry(m: map<string, seq<Handler>>): map<string, seq<Handler>>
  {
    Pushed(Pushed(Pushed(Pushed(m, "stdout", ConsoleLog), "stderr", ConsoleError),
      "module", ModuleStatus), "fiddle-ready", FiddleReady)
  }

  /** Starting from the empty registry of a new object, each of the four types has exactly
      its one handler and nothing else is registered. */
  lemma StartupRegistryOfNew()
    ensures StartupRegistry(map[]) == map["stdout" := [ConsoleLog], "stderr" := [ConsoleError],
      "module" := [ModuleStatus], "fiddle-ready" := [FiddleReady]]
  {
    PushedFresh(map[], "stdout", ConsoleLog);
    PushedFresh(map["stdout" := [ConsoleLog]], "stderr", ConsoleError);
    PushedFresh(map["stdout" := [ConsoleLog], "stderr" := [ConsoleError]], "module", ModuleStatus);
    PushedFresh(map["stdout" := [ConsoleLog], "stderr" := [ConsoleError], "module" := [ModuleStatus]],
      "fiddle-ready", FiddleReady);
  }

  /** The registry after the 'fiddle-ready' handler has run. */
  function AfterFiddleReady(m: map<string, seq<Handler>>): map<string, seq<Handler>>
  {
    Pushed(Pushed(Cleared(m, "fiddle-ready"), "pikchr", PikchrOutput), "working", WorkingState)
  }

  /** The 'fiddle-ready' handler runs at most once: afterwards a second 'fiddle-ready' message
      finds no handlers; the 'pikchr' and 'working' handlers have been added at the end of their
      lists; every other type keeps its list. */
  lemma FiddleReadyOneShot(m: map<string, seq<Handler>>, u: string)
    ensures "fiddle-ready" !in AfterFiddleReady(m) && HandlersOf(AfterFiddleReady(m), "fiddle-ready") == []
    ensures HandlersOf(AfterFiddleReady(m), "pikchr") == HandlersOf(m, "pikchr") + [PikchrOutput]
    ensures HandlersOf(AfterFiddleReady(m), "working") == HandlersOf(m, "working") + [WorkingState]
    ensures u !in {"fiddle-ready", "pikchr", "working"} ==>
      (u in AfterFiddleReady(m) <==> u in m) && HandlersOf(AfterFiddleReady(m), u) == HandlersOf(m, u)
  {
    var c := Cleared(m, "fiddle-ready");
    ClearedForgets(m, "fiddle-ready", u);
    ClearedForgets(m, "fiddle-ready", "pikchr");
    ClearedForgets(m, "fiddle-ready", "working");
    PushedHandlers(c, "pikchr", PikchrOutput, u);
    PushedHandlers(Pushed(c, "pikchr", PikchrOutput), "working", WorkingState, u);
  }
}
