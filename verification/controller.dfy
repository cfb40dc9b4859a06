/**
 The selection / conversion controller of the document converter as a pure
 state machine. The controller keeps the selected path, the output path, the
 pending conversion type, four button-disabled flags and the progress
 indicator. Each event handler becomes a function from the current state and
 the outside world's answers (picked files, file readability, the clock, the
 converter's outcome, file existence) to the next state, the log messages it
 writes and the one external action it asks for.
 */
module Controller {
  import opened Paths

  /** The pending conversion: "" (nothing chosen yet), "pdf_to_word" or
      "word_to_pdf". */
  datatype Kind = Unset | PdfToWord | WordToPdf

  /** What a path's extension says about the file. */
  datatype Format = Pdf | Docx | Unsupported

  /** Severity of a log entry (the styles the handlers use). */
  datatype Style = User | Success | Error | Warning

  datatype Message = Message(text: string, style: Style)

  /** What the converter or the launcher answered: nothing raised; an
      `Exception` with its message, which the handler catches and logs; or a
      raise outside `Exception` (`SystemExit`, `KeyboardInterrupt`), which
      only the `finally` cleanup sees before it leaves the handler. */
  datatype Outcome = Done | Failed(message: string) | Escaped

  /** The three ways the result is opened, one per operating-system family. */
  datatype Launcher = StartFile | OpenCommand | XdgOpen

  /** The external action a handler performs. */
  datatype Effect =
    | NoEffect
    | ShowPicker
    | RunConverter(kind: Kind, source: string, target: string)
    | Launch(launcher: Launcher, path: string)

  datatype State = State(
    selected: string,
    output: string,
    kind: Kind,
    selectDisabled: bool,
    pdfToWordDisabled: bool,
    wordToPdfDisabled: bool,
    openDisabled: bool,
    progressVisible: bool)

  /** One handler run: the state after it, the messages it logged in order,
      and the external action it took. */
  datatype Step = Step(state: State, log: seq<Message>, effect: Effect)

  /** The state at start-up: nothing selected, only "select" enabled. */
  function Init(): State
  {
    State("", "", Unset, false, true, true, true, false)
  }

  // ---------------------------------------------------------------------
  // Extensions, timestamps and output names

  /** Classifies a path by its lower-cased extension. */
  function FormatOf(p: string): Format
  {
    var e := Lower(Ext(p));
    if e == ".pdf" then Pdf else if e == ".docx" then Docx else Unsupported
  }

  /** A path counts as PDF (Word) exactly when its extension spells ".pdf"
      (".docx") in any mixture of ASCII letter cases. */
  lemma FormatOfSpelling(p: string)
    ensures FormatOf(p) == Pdf <==> SpelledIgnoringCase(Ext(p), ".pdf")
    ensures FormatOf(p) == Docx <==> SpelledIgnoringCase(Ext(p), ".docx")
  {
    LowerEqualsIff(Ext(p), ".pdf");
    LowerEqualsIff(Ext(p), ".docx");
  }

  predicate IsDigit(c: char)
  {
    '0' <= c <= '9'
  }

  /** The shape of a "%Y%m%d_%H%M%S" timestamp: 8 digits, '_', 6 digits. */
  predicate IsTimestamp(t: string)
  {
    |t| == 15 && t[8] == '_' &&
    forall k :: 0 <= k < |t| && k != 8 ==> IsDigit(t[k])
  }

  type Timestamp = t: string | IsTimestamp(t) witness "00000000_000000"

  /** Extension of the file a conversion produces. */
  function TargetExt(k: Kind): string
    requires k != Unset
  {
    if k == PdfToWord then ".docx" else ".pdf"
  }

  /** Name of the converted file: the source path without its extension,
      the timestamp glued on with no separator, then the target extension. */
  function OutputName(p: string, ts: Timestamp, k: Kind): string
    requires k != Unset
  {
    Root(p) + ts + TargetExt(k)
  }

  /** The output name splits back into (source root + timestamp, target
      extension): the timestamp never disturbs where the extension starts. */
  lemma OutputNameSplit(p: string, ts: Timestamp, k: Kind)
    requires k != Unset
    ensures SplitExt(OutputName(p, ts, k)) == (Root(p) + ts, TargetExt(k))
  {
    var o := OutputName(p, ts, k);
    var root := Root(p) + ts;
    var ext := TargetExt(k);
    var n := |Root(p)|;
    assert o == root + ext;
    forall j | n <= j < |o|
      ensures o[j] != '/'
    {
      if j < |root| {
        assert o[j] == ts[j - n];
      } else {
        assert o[j] == ext[j - |root|];
      }
    }
    assert BaseStart(o) <= n;
    assert o[n] == ts[0] && IsDigit(ts[0]);
    assert PosixSplit(o, root, ext);
    SplitExtUnique(o, root, ext);
  }

  /** A converted file, picked again, selects the opposite conversion. */
  lemma OutputFormatIsTarget(p: string, ts: Timestamp, k: Kind)
    requires k != Unset
    ensures FormatOf(OutputName(p, ts, k)) == (if k == PdfToWord then Docx else Pdf)
  {
    OutputNameSplit(p, ts, k);
  }

  /** A conversion never writes over its own source file. */
  lemma OutputNeverSource(p: string, ts: Timestamp, k: Kind)
    requires k != Unset
    ensures OutputName(p, ts, k) != p
  {
    var o := OutputName(p, ts, k);
    var n := |Root(p)|;
    assert p == Root(p) + Ext(p);
    if |o| == |p| {
      // The two differ right after the root: a digit against a '.'.
      assert o[n] == ts[0];
      assert p[n] == Ext(p)[0];
    }
  }

  /** Two conversions of one source give the same output name exactly when
      they have the same type and start within the same second. */
  lemma OutputNameCollision(p: string, t1: Timestamp, t2: Timestamp, k1: Kind, k2: Kind)
    requires k1 != Unset && k2 != Unset
    ensures OutputName(p, t1, k1) == OutputName(p, t2, k2) <==> t1 == t2 && k1 == k2
  {
    var o1 := OutputName(p, t1, k1);
    var o2 := OutputName(p, t2, k2);
    if o1 == o2 {
      assert TargetExt(k1) == TargetExt(k2);
      var n := |Root(p)|;
      forall j | 0 <= j < 15
        ensures t1[j] == t2[j]
      {
        assert o1[n + j] == t1[j];
        assert o2[n + j] == t2[j];
      }
    }
  }

  // ---------------------------------------------------------------------
  // Handlers

  /** The file-picker result handler. An empty result only warns. Otherwise
      the first file becomes the selection and "open" is disabled; a PDF
      enables only PDF->Word, a Word file only Word->PDF, and any other
      extension only logs an error, leaving the type and both conversion
      buttons as they were. */
  function Pick(s: State, files: seq<string>): (r: Step)
    ensures r.effect == NoEffect
    ensures |files| == 0 ==>
      r.state == s && r.log == [Message("Nenhum arquivo selecionado", Warning)]
    ensures |files| > 0 ==>
      && r.state.selected == files[0]
      && r.state.openDisabled
      && r.state.output == s.output
      && r.state.selectDisabled == s.selectDisabled
      && r.state.progressVisible == s.progressVisible
      && |r.log| == 1
    ensures |files| > 0 && FormatOf(files[0]) == Pdf ==>
      && r.state.kind == PdfToWord
      && !r.state.pdfToWordDisabled && r.state.wordToPdfDisabled
      && r.log == [Message("PDF selecionado: " + Basename(files[0]), User)]
    ensures |files| > 0 && FormatOf(files[0]) == Docx ==>
      && r.state.kind == WordToPdf
      && r.state.pdfToWordDisabled && !r.state.wordToPdfDisabled
      && r.log == [Message("Word selecionado: " + Basename(files[0]), User)]
    ensures |files| > 0 && FormatOf(files[0]) == Unsupported ==>
      && r.state.kind == s.kind
      && r.state.pdfToWordDisabled == s.pdfToWordDisabled
      && r.state.wordToPdfDisabled == s.wordToPdfDisabled
      && r.log == [Message("Formato não suportado", Error)]
  {
    if |files| == 0 then
      Step(s, [Message("Nenhum arquivo selecionado", Warning)], NoEffect)
    else
      var p := files[0];
      var t := s.(selected := p, openDisabled := true);
      match FormatOf(p)
      case Pdf =>
        Step(t.(pdfToWordDisabled := false, wordToPdfDisabled := true, kind := PdfToWord),
             [Message("PDF selecionado: " + Basename(p), User)], NoEffect)
      case Docx =>
        Step(t.(pdfToWordDisabled := true, wordToPdfDisabled := false, kind := WordToPdf),
             [Message("Word selecionado: " + Basename(p), User)], NoEffect)
      case Unsupported =>
        Step(t, [Message("Formato não suportado", Error)], NoEffect)
  }

  /** The controller while a conversion runs: every button disabled and the
      progress indicator shown. */
  function Busy(s: State): State
  {
    s.(selectDisabled := true, pdfToWordDisabled := true, wordToPdfDisabled := true,
       openDisabled := true, progressVisible := true)
  }

  /** The cleanup that runs whatever the converter did. */
  function Restore(s: State): State
  {
    s.(selectDisabled := false, progressVisible := false)
  }

  /** The conversion handler. `readable` is whether the selected file could
      be opened for reading, `ts` the clock's timestamp and `outcome` what the
      external converter did. */
  function Convert(s: State, readable: bool, ts: Timestamp, outcome: Outcome): (r: Step)
    // No selection, or a file that cannot be read: its own error and nothing else.
    ensures s.selected == "" || !readable ==> r.state == s && r.effect == NoEffect
    ensures s.selected == "" ==>
      r.log == [Message("Selecione um arquivo primeiro", Error)]
    ensures s.selected != "" && !readable ==>
      r.log == [Message("Feche o arquivo antes de converter", Error)]
    // Past the guards: "select" comes back, progress is hidden, both
    // conversion buttons end disabled, the selection and type are kept.
    ensures s.selected != "" && readable ==>
      && !r.state.selectDisabled && !r.state.progressVisible
      && r.state.pdfToWordDisabled && r.state.wordToPdfDisabled
      && r.state.selected == s.selected && r.state.kind == s.kind
    // Exactly the converter of the pending type runs, on the timestamped name.
    ensures s.selected != "" && readable && s.kind != Unset ==>
      && r.effect == RunConverter(s.kind, s.selected, OutputName(s.selected, ts, s.kind))
      && |r.log| == (if outcome.Escaped? then 1 else 2)
      && r.log[0] == Message(
           if s.kind == PdfToWord then "Convertendo PDF para Word..."
           else "Convertendo Word para PDF...", User)
    ensures s.selected != "" && readable && s.kind != Unset && outcome.Done? ==>
      && r.state.output == OutputName(s.selected, ts, s.kind)
      && !r.state.openDisabled
      && r.log[1] == Message("Conversão concluída: " + Basename(r.state.output), Success)
    ensures s.selected != "" && readable && s.kind != Unset && outcome.Failed? ==>
      && r.state.output == s.output
      && r.state.openDisabled
      && r.log[1] == Message("Erro na conversão: " + outcome.message, Error)
    // A raise outside `Exception` skips the error message; only the cleanup runs.
    ensures s.selected != "" && readable && s.kind != Unset && outcome.Escaped? ==>
      && r.state.output == s.output
      && r.state.openDisabled
    // With no pending type no converter runs, yet "open" is enabled.
    ensures s.selected != "" && readable && s.kind == Unset ==>
      && r.effect == NoEffect && r.log == []
      && r.state.output == s.output && !r.state.openDisabled
  {
    if s.selected == "" then
      Step(s, [Message("Selecione um arquivo primeiro", Error)], NoEffect)
    else if !readable then
      Step(s, [Message("Feche o arquivo antes de converter", Error)], NoEffect)
    else
      var b := Busy(s);
      if b.kind == Unset then
        Step(Restore(b.(openDisabled := false)), [], NoEffect)
      else
        var target := OutputName(b.selected, ts, b.kind);
        var started := Message(
          if b.kind == PdfToWord then "Convertendo PDF para Word..."
          else "Convertendo Word para PDF...", User);
        var run := RunConverter(b.kind, b.selected, target);
        match outcome
        case Done =>
          Step(Restore(b.(output := target, openDisabled := false)),
               [started, Message("Conversão concluída: " + Basename(target), Success)], run)
        case Failed(err) =>
          Step(Restore(b), [started, Message("Erro na conversão: " + err, Error)], run)
        case Escaped =>
          Step(Restore(b), [started], run)
  }

  /** Which launcher `platform.system()` selects. */
  function LauncherFor(system: string): Launcher
  {
    if system == "Windows" then StartFile
    else if system == "Darwin" then OpenCommand
    else XdgOpen
  }

  /** The "open result" handler. `present` is whether the output path exists
      on disk and `launch` what the launcher did. */
  function Open(s: State, present: bool, system: string, launch: Outcome): (r: Step)
    ensures r.state == s
    ensures r.effect.Launch? <==> s.output != "" && present
    ensures r.effect.Launch? ==> r.effect.path == s.output
    ensures r.effect.Launch? ==> r.effect.launcher == LauncherFor(system)
    ensures !r.effect.Launch? ==>
      r.effect == NoEffect && r.log == [Message("Arquivo não encontrado", Warning)]
    ensures r.effect.Launch? ==>
      r.log == if launch.Failed? then [Message("Erro ao abrir: " + launch.message, Error)] else []
  {
    if s.output != "" && present then
      var log := if launch.Failed? then [Message("Erro ao abrir: " + launch.message, Error)] else [];
      Step(s, log, Launch(LauncherFor(system), s.output))
    else
      Step(s, [Message("Arquivo não encontrado", Warning)], NoEffect)
  }
}
