/**
 * The parameter rules of the `DCT2App` window (compression_tool/gui.py): the
 * d slider's upper bound follows the block size F (`update_d_slider`), and
 * `submit` checks the input file, the output folder, F and d, in that order,
 * before it calls the compressor. Widgets, styling and dialogs are not modelled;
 * the file-system queries `os.path.isfile`/`os.path.isdir` are a parameter.
 */
module Gui {
  import opened Wrappers
  import opened Decimal

  /** `max_d = 2 * f_val - 2`: the largest cutoff the window allows for block size F. */
  function MaxD(F: int): (m: int)
    ensures m >= 0 <==> F >= 1
    ensures m % 2 == 0
  {
    2 * F - 2
  }

  /** The stored d after `update_d_slider(F)`: the smaller of d and the new bound. */
  function ClampD(d: int, F: int): (r: int)
    ensures r <= d && r <= MaxD(F)
    ensures r == d || r == MaxD(F)
  {
    if d > MaxD(F) then MaxD(F) else d
  }

  /** The `ValueError`s that `submit` raises, one per check. */
  datatype Error = NoFile | NoFolder | BadF | BadD(maxD: int)

  /** The text shown in the error box. */
  function Message(e: Error): (s: string)
    ensures |s| >= 2 && s[|s| - 1] == '.'
    ensures s[0] == 'd' <==> e.BadD?
  {
    match e
    case NoFile => "Invalid or no file selected."
    case NoFolder => "Invalid or no output folder selected."
    case BadF => "F must be a positive integer."
    case BadD(m) => "d must be between 0 and " + IntToString(m) + "."
  }

  /** The file-system queries `os.path.isfile` and `os.path.isdir`. */
  datatype FileSystem = FileSystem(isFile: string -> bool, isDir: string -> bool)

  /** The arguments the window hands to the compressor once every check has passed. */
  datatype Request = Request(inputFile: string, F: int, d: int, outputFolder: string, showImg: bool)

  datatype Outcome = Rejected(error: Error) | Compress(request: Request)

  /** One guard: whether it passed, and the error it raises when it did not. */
  datatype Check = Check(passed: bool, error: Error)

  /** The error of the first guard that fails, if any: how a chain of `raise`s inside one `try` behaves. */
  function FirstFailure(checks: seq<Check>): (r: Option<Error>)
    ensures r.None? <==> forall i :: 0 <= i < |checks| ==> checks[i].passed
    ensures r.Some? ==> exists i :: 0 <= i < |checks| && !checks[i].passed && r.value == checks[i].error &&
                          forall j :: 0 <= j < i ==> checks[j].passed
  {
    if checks == [] then None
    else if !checks[0].passed then Some(checks[0].error)
    else FirstFailure(checks[1..])
  }

  class DCT2App {
    var filePath: string
    var outputFolder: string
    /** The F slider's variable; the slider runs from 1 to 64. */
    var F: int
    /** The d slider's variable; the slider starts at 0. */
    var d: int
    /** The d slider's upper bound (`to`). */
    var dSliderTo: int
    var showImg: bool

    /** What the two sliders keep true: F in range, the d bound is 2F-2, d within its slider. */
    ghost predicate Valid()
      reads this
      ensures Valid() ==> 0 <= d <= 126
    {
      1 <= F <= 64 && dSliderTo == MaxD(F) && 0 <= d <= dSliderTo
    }

    /** `__init__`: F = 8, d = 10, a d slider up to 14, no file, the folder `<cwd>\output\`. */
    constructor (cwd: string)
      ensures Valid()
      ensures filePath == "" && outputFolder == cwd + "\\output\\" && showImg
      ensures F == 8 && d == 10 && dSliderTo == 14
    {
      filePath := "";
      outputFolder := cwd + "\\output\\";
      F := 8;
      d := 10;
      dSliderTo := 14;
      showImg := true;
    }

    /** `update_d_slider(val)`: the d slider's bound becomes 2·val-2 and d is lowered to it if above. */
    method UpdateDSlider(val: int)
      modifies this
      ensures dSliderTo == MaxD(val) && d == ClampD(old(d), val)
      ensures F == old(F) && filePath == old(filePath) && outputFolder == old(outputFolder) && showImg == old(showImg)
    {
      var maxD := 2 * val - 2;
      dSliderTo := maxD;
      if d > maxD {
        d := maxD;
      }
    }

    /** Moving the F slider: Tk stores the new value in F, then calls `update_d_slider` with it. */
    method MoveFSlider(val: int)
      requires Valid() && 1 <= val <= 64
      modifies this
      ensures Valid() && F == val && d == ClampD(old(d), val)
      ensures filePath == old(filePath) && outputFolder == old(outputFolder) && showImg == old(showImg)
    {
      F := val;
      UpdateDSlider(val);
    }

    /** Moving the d slider within its bounds. */
    method MoveDSlider(val: int)
      requires Valid() && 0 <= val <= dSliderTo
      modifies this
      ensures Valid() && d == val && F == old(F) && dSliderTo == old(dSliderTo)
      ensures filePath == old(filePath) && outputFolder == old(outputFolder) && showImg == old(showImg)
    {
      d := val;
    }

    /** The guards of `submit`, in the order the source runs them. */
    function Checks(fs: FileSystem): (cs: seq<Check>)
      reads this
      ensures |cs| == 4
      ensures (forall i :: 0 <= i < |cs| ==> cs[i].passed)
              <==> fs.isFile(filePath) && fs.isDir(outputFolder) && F > 0 && 0 <= d <= MaxD(F)
    {
      var cs := [ Check(fs.isFile(filePath), NoFile),
                  Check(fs.isDir(outputFolder), NoFolder),
                  Check(F > 0, BadF),
                  Check(0 <= d <= MaxD(F), BadD(MaxD(F))) ];
      assert (forall i :: 0 <= i < |cs| ==> cs[i].passed) <==> cs[0].passed && cs[1].passed && cs[2].passed && cs[3].passed by {
        if cs[0].passed && cs[1].passed && cs[2].passed && cs[3].passed {
          forall i | 0 <= i < |cs| ensures cs[i].passed {
            if i == 0 {} else if i == 1 {} else if i == 2 {} else {}
          }
        }
      }
      cs
    }

    /** `submit`: raise the first failing check's error, or reach the compressor call with the window's values. */
    function Submit(fs: FileSystem): (r: Outcome)
      reads this
      ensures r.Compress? <==> fs.isFile(filePath) && fs.isDir(outputFolder) && F > 0 && 0 <= d <= MaxD(F)
      ensures r.Compress? ==> r.request == Request(filePath, F, d, outputFolder, showImg)
    {
      if !fs.isFile(filePath) then Rejected(NoFile)
      else if !fs.isDir(outputFolder) then Rejected(NoFolder)
      else if F <= 0 then Rejected(BadF)
      else if !(0 <= d <= MaxD(F)) then Rejected(BadD(MaxD(F)))
      else Compress(Request(filePath, F, d, outputFolder, showImg))
    }
  }

  // ---------------------------------------------------------------------------
  // The clamp (gui.py:100-105)

  /** Clamping again with the same F changes nothing. */
  lemma ClampDIdempotent(d: int, F: int)
    ensures ClampD(ClampD(d, F), F) == ClampD(d, F)
  {
  }

  /** A d already within the bound is left alone; one above it becomes exactly 2F-2. */
  lemma ClampDCases(d: int, F: int)
    ensures d <= MaxD(F) ==> ClampD(d, F) == d
    ensures d > MaxD(F) ==> ClampD(d, F) == MaxD(F)
  {
  }

  // ---------------------------------------------------------------------------
  // The checks of submit (gui.py:118-138)

  /** `submit` raises the error of the first failing check: file, then folder, then F, then d. */
  lemma SubmitIsFirstFailure(app: DCT2App, fs: FileSystem)
    ensures app.Submit(fs) == match FirstFailure(app.Checks(fs))
                              case None => Compress(Request(app.filePath, app.F, app.d, app.outputFolder, app.showImg))
                              case Some(e) => Rejected(e)
  {
    var cs := app.Checks(fs);
    if !cs[0].passed {
    } else if !cs[1].passed {
      assert FirstFailure(cs) == FirstFailure(cs[1..]);
    } else if !cs[2].passed {
      assert FirstFailure(cs) == FirstFailure(cs[1..]) == FirstFailure(cs[2..]);
    } else if !cs[3].passed {
      assert FirstFailure(cs) == FirstFailure(cs[1..]) == FirstFailure(cs[2..]) == FirstFailure(cs[3..]);
    } else {
      assert FirstFailure(cs) == None;
    }
  }

  /** A non-positive F with a valid file and folder is reported as such, whatever d is. */
  lemma SubmitRejectsNonPositiveF(app: DCT2App, fs: FileSystem)
    requires fs.isFile(app.filePath) && fs.isDir(app.outputFolder) && app.F <= 0
    ensures app.Submit(fs) == Rejected(BadF)
    ensures Message(app.Submit(fs).error) == "F must be a positive integer."
  {
  }

  /** With F = 1 the only cutoff accepted is d = 0. */
  lemma SubmitBlockSizeOne(app: DCT2App, fs: FileSystem)
    requires fs.isFile(app.filePath) && fs.isDir(app.outputFolder) && app.F == 1
    ensures app.Submit(fs).Compress? <==> app.d == 0
    ensures app.d != 0 ==> app.Submit(fs) == Rejected(BadD(0))
  {
  }

  /** Whatever F and d are, a missing input file is the error shown. */
  lemma SubmitFileFirst(app: DCT2App, fs: FileSystem)
    requires !fs.isFile(app.filePath)
    ensures app.Submit(fs) == Rejected(NoFile)
  {
  }

  /** A window whose sliders keep their invariant never fails the F or d check. */
  lemma ValidWindowPassesRangeChecks(app: DCT2App, fs: FileSystem)
    requires app.Valid()
    ensures app.Submit(fs).Compress? <==> fs.isFile(app.filePath) && fs.isDir(app.outputFolder)
    ensures app.Submit(fs).Rejected? ==> app.Submit(fs).error in {NoFile, NoFolder}
  {
  }

  // ---------------------------------------------------------------------------
  // The messages

  lemma MessageOfBadD(m: int)
    ensures Message(BadD(m))[..24] == "d must be between 0 and "
    ensures Message(BadD(m))[24..|Message(BadD(m))| - 1] == IntToString(m)
  {
    var s := Message(BadD(m));
    assert s == "d must be between 0 and " + IntToString(m) + ".";
  }

  /** Different errors show different messages, so the message says which check failed and, for d, the bound. */
  lemma MessagesDiffer(e1: Error, e2: Error)
    requires e1 != e2
    ensures Message(e1) != Message(e2)
  {
    if e1.BadD? && e2.BadD? {
      if Message(e1) == Message(e2) {
        MessageOfBadD(e1.maxD);
        MessageOfBadD(e2.maxD);
        IntToStringInjective(e1.maxD, e2.maxD);
      }
    } else {
      assert Message(e1)[0] != Message(e2)[0] || Message(e1)[14] != Message(e2)[14];
    }
  }
}
