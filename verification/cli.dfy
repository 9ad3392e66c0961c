/** The command-line entry point: it checks the folder, parses the engine list and
    dispatches the selected runners in a fixed order, skipping the remote engines whose
    credentials are missing. Launching a runner is abstract: it either succeeds or prints a
    warning, and the next runner is started either way. */
module Cli {
  import opened Wrappers
  import opened Text
  import opened Engines

  datatype CliError = FolderNotFound | NoValidEngines

  // ---------- the engine list ----------

  /** A name as the parsed list holds it: non-empty, no surrounding whitespace and no
      upper-case ASCII letter. */
  predicate CleanName(n: string) {
    && n != ""
    && !IsSpace(n[0]) && !IsSpace(n[|n| - 1])
    && forall i :: 0 <= i < |n| ==> !('A' <= n[i] <= 'Z')
  }

  /** `[e.strip().lower() for e in parts if e.strip()]`. */
  function CleanNames(parts: seq<string>): (names: seq<string>)
    ensures |names| <= |parts|
    ensures forall n :: n in names <==>
              exists i :: 0 <= i < |parts| && Strip(parts[i]) != "" && n == Lower(Strip(parts[i]))
  {
    if |parts| == 0 then []
    else
      var s := Strip(parts[0]);
      var rest := CleanNames(parts[1..]);
      var names := (if s != "" then [Lower(s)] else []) + rest;
      assert forall n :: n in names <==>
               exists i :: 0 <= i < |parts| && Strip(parts[i]) != "" && n == Lower(Strip(parts[i])) by {
        forall n | n in names
          ensures exists i :: 0 <= i < |parts| && Strip(parts[i]) != "" && n == Lower(Strip(parts[i]))
        {
          if s != "" && n == Lower(s) {
            assert Strip(parts[0]) != "" && n == Lower(Strip(parts[0]));
          } else {
            assert n in rest;
            var j :| 0 <= j < |parts[1..]| && Strip(parts[1..][j]) != "" && n == Lower(Strip(parts[1..][j]));
            assert parts[1..][j] == parts[j + 1];
          }
        }
        forall n, i | 0 <= i < |parts| && Strip(parts[i]) != "" && n == Lower(Strip(parts[i]))
          ensures n in names
        {
          if i > 0 {
            assert parts[i] == parts[1..][i - 1];
            assert n in rest;
          }
        }
      }
      names
  }

  /** The engine names given on the command line, split at ',', stripped and lower-cased,
      empty entries dropped. */
  function ParseEngines(arg: string): seq<string> {
    CleanNames(SplitOn(arg, ','))
  }

  /** A stripped, lower-cased, non-empty piece is clean. */
  lemma StripLowerClean(p: string)
    requires Strip(p) != ""
    ensures CleanName(Lower(Strip(p)))
  {
    var s := Strip(p);
    var l := Lower(s);
    assert !IsSpace(l[0]) by {
      LowerCharKeepsSpace(s[0]);
    }
    assert !IsSpace(l[|l| - 1]) by {
      LowerCharKeepsSpace(s[|s| - 1]);
    }
  }

  /** Stripping and lower-casing keep a piece free of ','. */
  lemma StripLowerCommaFree(p: string)
    requires Free(p, ',')
    ensures Free(Lower(Strip(p)), ',')
  {
    var s := Strip(p);
    assert Free(s, ',') by {
      var a := LeadingSpaces(p);
      forall i | 0 <= i < |s| ensures s[i] != ',' {
        assert s[i] == p[a + i];
      }
    }
    var l := Lower(s);
    forall i | 0 <= i < |l| ensures l[i] != ',' {
      assert l[i] == LowerChar(s[i]);
    }
  }

  /** Lower-casing neither creates nor removes whitespace. */
  lemma LowerCharKeepsSpace(c: char)
    ensures IsSpace(LowerChar(c)) == IsSpace(c)
  {
    if 'A' <= c <= 'Z' {
      assert !IsSpace(c) && !IsSpace(LowerChar(c));
    }
  }

  /** Every parsed name is clean and free of ','. */
  lemma ParsedNamesClean(parts: seq<string>)
    requires forall k :: 0 <= k < |parts| ==> Free(parts[k], ',')
    ensures forall i :: 0 <= i < |CleanNames(parts)| ==>
              CleanName(CleanNames(parts)[i]) && Free(CleanNames(parts)[i], ',')
  {
    var names := CleanNames(parts);
    forall i | 0 <= i < |names| ensures CleanName(names[i]) && Free(names[i], ',') {
      assert names[i] in names;
      var j :| 0 <= j < |parts| && Strip(parts[j]) != "" && names[i] == Lower(Strip(parts[j]));
      StripLowerClean(parts[j]);
      StripLowerCommaFree(parts[j]);
    }
  }

  lemma StripClean(n: string)
    requires n != "" && !IsSpace(n[0]) && !IsSpace(n[|n| - 1])
    ensures Strip(n) == n
  {
  }

  lemma LowerClean(n: string)
    requires forall i :: 0 <= i < |n| ==> !('A' <= n[i] <= 'Z')
    ensures Lower(n) == n
  {
  }

  lemma {:induction false} CleanNamesOfClean(names: seq<string>)
    requires forall i :: 0 <= i < |names| ==> CleanName(names[i])
    ensures CleanNames(names) == names
  {
    if |names| > 0 {
      var n := names[0];
      assert Strip(n) == n && Lower(n) == n by {
        StripClean(n);
        LowerClean(n);
      }
      assert CleanNames(names) == [n] + CleanNames(names[1..]);
      CleanNamesOfClean(names[1..]);
      assert names == [n] + names[1..];
    }
  }

  /** Parsing gives back any list of clean, ','-free names written with ',' between them. */
  lemma ParseJoined(names: seq<string>)
    requires forall i :: 0 <= i < |names| ==> CleanName(names[i]) && Free(names[i], ',')
    ensures ParseEngines(Join(names, ',')) == names
  {
    if |names| == 0 {
      ParseEmpty();
    } else {
      assert SplitOn(Join(names, ','), ',') == names by {
        SplitOnJoin(names, ',');
      }
      CleanNamesOfClean(names);
    }
  }

  lemma ParseEmpty()
    ensures ParseEngines("") == []
  {
    assert SplitOn("", ',') == [""] by {
      assert FirstIndex("", ',') == 0;
    }
    assert Strip("") == "";
    assert CleanNames([""]) == [] + CleanNames([]);
  }

  /** `[e for e in engines if e in {...}]`. */
  function Known(names: seq<string>): (ks: seq<string>)
    ensures forall n :: n in ks <==> n in names && n in KnownNames
  {
    if |names| == 0 then []
    else (if names[0] in KnownNames then [names[0]] else []) + Known(names[1..])
  }

  // ---------- the dispatch plan ----------

  /** `os.getenv(k)` is truthy for every key: present and non-empty. */
  predicate HasEnv(env: map<string, string>, keys: seq<string>) {
    forall k :: k in keys ==> k in env && env[k] != ""
  }

  /** The credentials an engine's launch is gated on; the local engines need none. */
  function KeysOf(e: Engine): seq<string> {
    match e
    case FaceNet => []
    case DeepFace => []
    case Aws => ["AWS_ACCESS_KEY_ID", "AWS_SECRET_ACCESS_KEY"]
    case FacePP => ["FACEPP_API_KEY", "FACEPP_API_SECRET"]
  }

  /** The path `outdir / file`. */
  datatype OutFile = OutFile(dir: string, file: string)

  /** Start the engine's runner writing to `outfile`, or report that its keys are missing. */
  datatype Step = Launch(engine: Engine, outfile: OutFile) | SkipMissingKeys(engine: Engine)

  /** The order in which the engines are dispatched. */
  function DispatchPos(e: Engine): nat {
    match e
    case FaceNet => 0
    case DeepFace => 1
    case Aws => 2
    case FacePP => 3
  }

  /** The engines named in the list, each once, in dispatch order. */
  function Dispatched(names: seq<string>): (es: seq<Engine>)
    ensures forall e :: e in es <==> Name(e) in names
    ensures forall i, j :: 0 <= i < j < |es| ==> DispatchPos(es[i]) < DispatchPos(es[j])
  {
    (if "facenet" in names then [FaceNet] else [])
    + (if "deepface" in names then [DeepFace] else [])
    + (if "aws" in names then [Aws] else [])
    + (if "facepp" in names then [FacePP] else [])
  }

  /** Launch the engine, or skip it when the keys it is gated on are not all set. */
  function StepOf(e: Engine, outdir: string, env: map<string, string>): Step {
    if HasEnv(env, KeysOf(e)) then Launch(e, OutFile(outdir, ResultFile(e)))
    else SkipMissingKeys(e)
  }

  function Steps(names: seq<string>, outdir: string, env: map<string, string>): (steps: seq<Step>)
    ensures |steps| == |Dispatched(names)|
    ensures forall i :: 0 <= i < |steps| ==> steps[i] == StepOf(Dispatched(names)[i], outdir, env)
    ensures forall i :: 0 <= i < |steps| ==> steps[i].engine == Dispatched(names)[i]
  {
    var es := Dispatched(names);
    seq(|es|, i requires 0 <= i < |es| => StepOf(es[i], outdir, env))
  }

  /** The engines a plan mentions. */
  function PlanEngines(steps: seq<Step>): set<Engine> {
    set i | 0 <= i < |steps| :: steps[i].engine
  }

  /** The whole planning stage: the folder is checked first, then the engine list, then
      the steps are laid out. */
  function Plan(folderExists: bool, enginesArg: string, outdir: string, env: map<string, string>)
    : (r: Result<seq<Step>, CliError>)
    ensures !folderExists ==> r == Err(FolderNotFound)
    ensures r == Err(NoValidEngines) <==> folderExists && Known(ParseEngines(enginesArg)) == []
    ensures r.Ok? <==> folderExists && Known(ParseEngines(enginesArg)) != []
    ensures r.Ok? ==> r.value == Steps(Known(ParseEngines(enginesArg)), outdir, env) && r.value != []
  {
    if !folderExists then Err(FolderNotFound)
    else
      var names := Known(ParseEngines(enginesArg));
      if names == [] then Err(NoValidEngines)
      else
        DispatchedNonEmpty(names);
        Ok(Steps(names, outdir, env))
  }

  /** A non-empty list of recognised names dispatches at least one engine. */
  lemma DispatchedNonEmpty(names: seq<string>)
    requires names != [] && names[0] in KnownNames
    ensures Dispatched(names) != []
  {
    var n := names[0];
    var e := if n == "facenet" then FaceNet else if n == "deepface" then DeepFace
             else if n == "aws" then Aws else FacePP;
    assert Name(e) == n;
    assert e in Dispatched(names);
  }

  /** The steps mention exactly the dispatched engines. */
  lemma StepsEngines(names: seq<string>, outdir: string, env: map<string, string>)
    ensures forall e :: e in PlanEngines(Steps(names, outdir, env)) <==> e in Dispatched(names)
  {
    var es := Dispatched(names);
    var steps := Steps(names, outdir, env);
    assert |steps| == |es| && forall i :: 0 <= i < |steps| ==> steps[i].engine == es[i];
    forall e | e in es ensures e in PlanEngines(steps) {
      var i :| 0 <= i < |es| && es[i] == e;
      assert steps[i].engine in PlanEngines(steps);
    }
    forall e | e in PlanEngines(steps) ensures e in es {
      var i :| 0 <= i < |steps| && steps[i].engine == e;
      assert es[i] in es;
    }
  }

  /** The steps follow the fixed order facenet, deepface, aws, facepp, so no engine appears
      twice. */
  lemma PlanOrder(folderExists: bool, enginesArg: string, outdir: string, env: map<string, string>)
    requires Plan(folderExists, enginesArg, outdir, env).Ok?
    ensures var steps := Plan(folderExists, enginesArg, outdir, env).value;
            forall i, j :: 0 <= i < j < |steps| ==> DispatchPos(steps[i].engine) < DispatchPos(steps[j].engine)
  {
    var names := Known(ParseEngines(enginesArg));
    var steps := Steps(names, outdir, env);
    assert Plan(folderExists, enginesArg, outdir, env).value == steps;
    assert forall i :: 0 <= i < |steps| ==> steps[i].engine == Dispatched(names)[i];
  }

  /** An engine has a step exactly when its name is in the parsed list. */
  lemma PlanNames(folderExists: bool, enginesArg: string, outdir: string, env: map<string, string>)
    requires Plan(folderExists, enginesArg, outdir, env).Ok?
    ensures forall e :: e in PlanEngines(Plan(folderExists, enginesArg, outdir, env).value)
                        <==> Name(e) in ParseEngines(enginesArg)
  {
    var parsed := ParseEngines(enginesArg);
    var names := Known(parsed);
    assert Plan(folderExists, enginesArg, outdir, env).value == Steps(names, outdir, env);
    StepsEngines(names, outdir, env);
    forall e ensures Name(e) in names <==> Name(e) in parsed {
      NameKnown(e);
    }
  }

  /** Every engine's name is one the filter keeps. */
  lemma NameKnown(e: Engine)
    ensures Name(e) in KnownNames
  {
  }

  /** Only a local engine or a remote one with both keys set is launched, and every launch
      writes `outdir/<engine>_results.csv`; a remote engine without its keys is skipped. */
  lemma PlanGating(folderExists: bool, enginesArg: string, outdir: string, env: map<string, string>, i: int)
    requires Plan(folderExists, enginesArg, outdir, env).Ok?
    requires 0 <= i < |Plan(folderExists, enginesArg, outdir, env).value|
    ensures var step := Plan(folderExists, enginesArg, outdir, env).value[i];
            match step
            case Launch(e, f) => HasEnv(env, KeysOf(e)) && f == OutFile(outdir, Name(e) + "_results.csv")
            case SkipMissingKeys(e) => (e == Aws || e == FacePP) && !HasEnv(env, KeysOf(e))
  {
    assert HasEnv(env, KeysOf(FaceNet)) && HasEnv(env, KeysOf(DeepFace));
  }

  lemma EmptyIff<T>(s: seq<T>)
    ensures s == [] <==> forall x :: x !in s
  {
    if s != [] {
      assert s[0] in s;
    }
  }

  /** The order and repetitions of the engine list do not matter: two lists naming the
      same known engines give the same plan. */
  lemma PlanIgnoresOrderAndDuplicates(folderExists: bool, a: string, b: string, outdir: string,
                                      env: map<string, string>)
    requires forall n :: n in KnownNames ==> (n in ParseEngines(a) <==> n in ParseEngines(b))
    ensures Plan(folderExists, a, outdir, env) == Plan(folderExists, b, outdir, env)
  {
    var ka, kb := Known(ParseEngines(a)), Known(ParseEngines(b));
    assert forall n :: n in ka <==> n in kb;
    EmptyIff(ka);
    EmptyIff(kb);
    assert Dispatched(ka) == Dispatched(kb);
  }

  // ---------- running the plan ----------

  datatype Outcome = Finished(engine: Engine) | Warned(engine: Engine) | Skipped(engine: Engine)

  /** `run` for every step in order; `succeeds(e)` says whether engine `e`'s subprocess
      exits with status 0. A failure only prints a warning. */
  method RunPlan(steps: seq<Step>, succeeds: Engine -> bool) returns (outs: seq<Outcome>)
    ensures |outs| == |steps|
    ensures forall i :: 0 <= i < |steps| ==>
              outs[i].engine == steps[i].engine
              && (outs[i].Warned? <==> steps[i].Launch? && !succeeds(steps[i].engine))
              && (outs[i].Skipped? <==> steps[i].SkipMissingKeys?)
  {
    outs := [];
    var i := 0;
    while i < |steps|
      invariant 0 <= i <= |steps| && |outs| == i
      invariant forall j :: 0 <= j < i ==>
                  outs[j].engine == steps[j].engine
                  && (outs[j].Warned? <==> steps[j].Launch? && !succeeds(steps[j].engine))
                  && (outs[j].Skipped? <==> steps[j].SkipMissingKeys?)
    {
      var out := match steps[i]
        case Launch(e, _) => if succeeds(e) then Finished(e) else Warned(e)
        case SkipMissingKeys(e) => Skipped(e);
      outs := outs + [out];
      i := i + 1;
    }
  }
}
