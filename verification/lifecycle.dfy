/**
 The controller inside its window: user clicks reach a handler only while
 the clicked button is enabled, and the picker's answer reaches the picker
 handler. This module states what holds in every state reachable from
 start-up and which actions those states allow.
 */
module Lifecycle {
  import opened Paths
  import opened Controller

  /** Something that happens in the window, with the outside world's answers
      to the handler it triggers. */
  datatype Event =
    | ClickSelect
    | PickerResult(files: seq<string>)
    | ClickPdfToWord(readable: bool, ts: Timestamp, outcome: Outcome)
    | ClickWordToPdf(readable: bool, ts: Timestamp, outcome: Outcome)
    | ClickOpen(present: bool, system: string, launch: Outcome)

  predicate IsClick(e: Event)
  {
    !e.PickerResult?
  }

  /** Nothing happens: the state is kept, nothing is logged or run. */
  function Ignored(s: State): Step
  {
    Step(s, [], NoEffect)
  }

  /** Routes an event to its handler; a click on a disabled button is
      dropped. Both conversion buttons call the same conversion handler. */
  function Dispatch(s: State, e: Event): (r: Step)
    ensures IsClick(e) && !Enabled(s, e) ==> r == Ignored(s)
    ensures e.ClickSelect? && Enabled(s, e) ==> r == Step(s, [], ShowPicker)
  {
    match e
    case ClickSelect =>
      if s.selectDisabled then Ignored(s) else Step(s, [], ShowPicker)
    case PickerResult(files) =>
      Pick(s, files)
    case ClickPdfToWord(readable, ts, outcome) =>
      if s.pdfToWordDisabled then Ignored(s) else Convert(s, readable, ts, outcome)
    case ClickWordToPdf(readable, ts, outcome) =>
      if s.wordToPdfDisabled then Ignored(s) else Convert(s, readable, ts, outcome)
    case ClickOpen(present, system, launch) =>
      if s.openDisabled then Ignored(s) else Open(s, present, system, launch)
  }

  /** Whether the button an event clicks is enabled. */
  predicate Enabled(s: State, e: Event)
  {
    match e
    case ClickSelect => !s.selectDisabled
    case PickerResult(_) => true
    case ClickPdfToWord(_, _, _) => !s.pdfToWordDisabled
    case ClickWordToPdf(_, _, _) => !s.wordToPdfDisabled
    case ClickOpen(_, _, _) => !s.openDisabled
  }

  /** The state after handling `events` in order, starting from `s`. */
  function Run(s: State, events: seq<Event>): State
    decreases |events|
  {
    if |events| == 0 then s else Run(Dispatch(s, events[0]).state, events[1..])
  }

  /** What holds between events in every reachable state: "select" is
      enabled and progress hidden; an enabled conversion button agrees with
      the pending type (so at most one is enabled); an enabled "open" button
      points at the file converted from the current selection. */
  ghost predicate Inv(s: State)
  {
    && !s.selectDisabled
    && !s.progressVisible
    && (!s.pdfToWordDisabled ==> s.kind == PdfToWord)
    && (!s.wordToPdfDisabled ==> s.kind == WordToPdf)
    && (!s.openDisabled ==> s.kind != Unset && ConvertedFromSelection(s))
  }

  /** The output is what converting the current selection produced at some
      second. */
  ghost predicate ConvertedFromSelection(s: State)
    requires s.kind != Unset
  {
    exists ts: Timestamp :: s.output == OutputName(s.selected, ts, s.kind)
  }

  /** Every handler keeps the invariant. */
  lemma DispatchPreservesInv(s: State, e: Event)
    requires Inv(s)
    ensures Inv(Dispatch(s, e).state)
  {
  }

  lemma {:induction false} RunPreservesInv(s: State, events: seq<Event>)
    requires Inv(s)
    ensures Inv(Run(s, events))
    decreases |events|
  {
    if |events| > 0 {
      DispatchPreservesInv(s, events[0]);
      RunPreservesInv(Dispatch(s, events[0]).state, events[1..]);
    }
  }

  /** Whatever the user does, between events "select" is usable, the
      progress indicator is hidden, and never both conversion buttons are
      enabled. */
  lemma ReachableStates(events: seq<Event>)
    ensures Inv(Run(Init(), events))
    ensures var s := Run(Init(), events);
      !s.selectDisabled && !s.progressVisible &&
      (s.pdfToWordDisabled || s.wordToPdfDisabled)
  {
    RunPreservesInv(Init(), events);
  }

  /** In a reachable state (one satisfying `Inv`), clicking an enabled
      conversion button on a readable selection runs exactly the converter
      that button names. */
  lemma EnabledButtonRunsItsConverter(s: State, e: Event)
    requires Inv(s)
    requires (e.ClickPdfToWord? || e.ClickWordToPdf?) && Enabled(s, e)
    requires s.selected != "" && e.readable
    ensures var k := if e.ClickPdfToWord? then PdfToWord else WordToPdf;
      Dispatch(s, e).effect == RunConverter(k, s.selected, OutputName(s.selected, e.ts, k))
  {
  }

  /** In a reachable state an enabled "open" button always reaches the
      launcher once the file exists, and the file it opens is a converted
      document. */
  lemma EnabledOpenLaunches(events: seq<Event>, system: string, launch: Outcome)
    requires !Run(Init(), events).openDisabled
    ensures var s := Run(Init(), events);
      && Dispatch(s, ClickOpen(true, system, launch)).effect
           == Launch(LauncherFor(system), s.output)
      && s.output != s.selected
      && Ext(s.output) == (if s.kind == PdfToWord then ".docx" else ".pdf")
  {
    ReachableStates(events);
    var s := Run(Init(), events);
    var ts: Timestamp :| s.output == OutputName(s.selected, ts, s.kind);
    OutputNameSplit(s.selected, ts, s.kind);
    OutputNeverSource(s.selected, ts, s.kind);
  }

  /** Every button click is dropped in the busy state, the gate against a
      second conversion or a new selection. The busy state exists only inside
      one run of the conversion handler, and handlers run to completion, so
      `Run` never dispatches an event in it: this follows from the
      definitions of `Busy` and `Dispatch` alone. A picker result is not a
      click and would not be dropped. */
  lemma BusyDropsClicks(s: State, e: Event)
    requires IsClick(e)
    ensures Dispatch(Busy(s), e) == Ignored(Busy(s))
  {
  }

  /** After a conversion attempt, successful or not, no conversion button is
      enabled: converting again needs a new pick. */
  lemma ConvertNeedsNewPick(s: State, e: Event)
    requires (e.ClickPdfToWord? || e.ClickWordToPdf?) && Enabled(s, e)
    requires s.selected != "" && e.readable
    ensures var t := Dispatch(s, e).state;
      t.pdfToWordDisabled && t.wordToPdfDisabled && !t.selectDisabled
  {
  }

  // ---------------------------------------------------------------------
  // Worked scenarios

  lemma RunOne(s: State, e: Event)
    ensures Run(s, [e]) == Dispatch(s, e).state
  {
    assert [e][1..] == [];
  }

  lemma RunTwo(s: State, e1: Event, e2: Event)
    ensures Run(s, [e1, e2]) == Dispatch(Dispatch(s, e1).state, e2).state
  {
    assert [e1, e2][1..] == [e2];
    RunOne(Dispatch(s, e1).state, e2);
  }

  lemma PdfName(name: string)
    requires name != "" && forall k :: 0 <= k < |name| ==> name[k] != '.' && name[k] != '/'
    ensures FormatOf(name + ".pdf") == Pdf && Root(name + ".pdf") == name
  {
    SplitPlainName(name, ".pdf");
    assert Lower(".pdf") == ".pdf";
  }

  lemma DocxName(name: string)
    requires name != "" && forall k :: 0 <= k < |name| ==> name[k] != '.' && name[k] != '/'
    ensures FormatOf(name + ".docx") == Docx && Root(name + ".docx") == name
  {
    SplitPlainName(name, ".docx");
    assert Lower(".docx") == ".docx";
  }

  /** A successful click on the enabled button of the pending conversion. */
  lemma ConversionSucceeds(s: State, e: Event)
    requires e.ClickPdfToWord? || e.ClickWordToPdf?
    requires s.kind == (if e.ClickPdfToWord? then PdfToWord else WordToPdf)
    requires Enabled(s, e) && s.selected != "" && e.readable && e.outcome.Done?
    ensures Dispatch(s, e).effect == RunConverter(s.kind, s.selected, OutputName(s.selected, e.ts, s.kind))
    ensures var t := Dispatch(s, e).state;
      t.output == OutputName(s.selected, e.ts, s.kind) && !t.openDisabled && t.kind == s.kind
  {
  }

  /** A plain PDF name picked and converted yields name + timestamp +
      ".docx", and "open" becomes enabled. */
  lemma PickPdfThenConvert(name: string, ts: Timestamp)
    requires name != "" && forall k :: 0 <= k < |name| ==> name[k] != '.' && name[k] != '/'
    ensures var s := Run(Init(), [PickerResult([name + ".pdf"]), ClickPdfToWord(true, ts, Done)]);
      && s.output == name + ts + ".docx"
      && !s.openDisabled && s.kind == PdfToWord
  {
    var p := name + ".pdf";
    var s1 := Dispatch(Init(), PickerResult([p])).state;
    assert s1.kind == PdfToWord && !s1.pdfToWordDisabled && s1.selected == p && p != "" by {
      PdfName(name);
    }
    var s2 := Dispatch(s1, ClickPdfToWord(true, ts, Done)).state;
    ConversionSucceeds(s1, ClickPdfToWord(true, ts, Done));
    assert OutputName(p, ts, PdfToWord) == name + ts + ".docx" by {
      PdfName(name);
    }
    RunTwo(Init(), PickerResult([p]), ClickPdfToWord(true, ts, Done));
  }

  /** A plain Word name picked and converted yields name + timestamp +
      ".pdf", and "open" becomes enabled. */
  lemma PickDocxThenConvert(name: string, ts: Timestamp)
    requires name != "" && forall k :: 0 <= k < |name| ==> name[k] != '.' && name[k] != '/'
    ensures var s := Run(Init(), [PickerResult([name + ".docx"]), ClickWordToPdf(true, ts, Done)]);
      && s.output == name + ts + ".pdf"
      && !s.openDisabled && s.kind == WordToPdf
  {
    var p := name + ".docx";
    var s1 := Dispatch(Init(), PickerResult([p])).state;
    assert s1.kind == WordToPdf && !s1.wordToPdfDisabled && s1.selected == p && p != "" by {
      DocxName(name);
    }
    var s2 := Dispatch(s1, ClickWordToPdf(true, ts, Done)).state;
    ConversionSucceeds(s1, ClickWordToPdf(true, ts, Done));
    assert OutputName(p, ts, WordToPdf) == name + ts + ".pdf" by {
      DocxName(name);
    }
    RunTwo(Init(), PickerResult([p]), ClickWordToPdf(true, ts, Done));
  }

  /** An unsupported pick after a PDF keeps PDF->Word enabled, so the PDF
      converter then runs on the unsupported file. Such a pick only arrives
      when the dialog's ".pdf"/".docx" filter lets it through. */
  lemma StaleTypeScenario(name: string, q: string, ts: Timestamp)
    requires name != "" && forall k :: 0 <= k < |name| ==> name[k] != '.' && name[k] != '/'
    requires q != "" && FormatOf(q) == Unsupported
    ensures var s := Run(Init(), [PickerResult([name + ".pdf"]), PickerResult([q])]);
      && s.selected == q && s.kind == PdfToWord && !s.pdfToWordDisabled
      && Dispatch(s, ClickPdfToWord(true, ts, Done)).effect
           == RunConverter(PdfToWord, q, Root(q) + ts + ".docx")
  {
    var s1 := Dispatch(Init(), PickerResult([name + ".pdf"])).state;
    assert s1.kind == PdfToWord && !s1.pdfToWordDisabled by {
      PdfName(name);
    }
    var s2 := Dispatch(s1, PickerResult([q])).state;
    assert s2.kind == PdfToWord && !s2.pdfToWordDisabled && s2.selected == q;
    RunTwo(Init(), PickerResult([name + ".pdf"]), PickerResult([q]));
    ConversionSucceeds(s2, ClickPdfToWord(true, ts, Done));
  }

  /** Converting a file that cannot be read changes nothing but the log,
      which asks to close the file; the PDF->Word button stays enabled for a
      retry. */
  lemma LockedFileScenario(ts: Timestamp, outcome: Outcome)
    ensures var s := Run(Init(), [PickerResult(["locked.pdf"])]);
      && Run(s, [ClickPdfToWord(false, ts, outcome)]) == s
      && Dispatch(s, ClickPdfToWord(false, ts, outcome)).log
           == [Message("Feche o arquivo antes de converter", Error)]
      && !s.pdfToWordDisabled
  {
    PdfName("locked");
    assert "locked" + ".pdf" == "locked.pdf";
    var s := Run(Init(), [PickerResult(["locked.pdf"])]);
    RunOne(Init(), PickerResult(["locked.pdf"]));
    RunOne(s, ClickPdfToWord(false, ts, outcome));
  }
}
