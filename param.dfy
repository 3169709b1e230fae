/** The run parameters of the network-inference program (struct Parameter in
    src/param.h and the checks and names of src/param.cpp): the defaults, the
    case-insensitive comparison, the ordered validation that throws its first
    failure, the home directory normalisation, and the output file name. */
module Param {
  import opened Wrappers
  import opened Strings

  const DefaultThreshold: real := 0.0
  const DefaultPvalue: real := 1.0
  const DefaultEps: real := 1.0
  const DefaultSigma: real := 99.0
  const DefaultSample: int := 0
  const DefaultPercent: real := 0.35
  const DefaultMean: real := 0.0
  const DefaultCv: real := 0.0
  const DefaultCorrection: real := 0.0
  const DefaultNparLimit: int := 20
  const DefaultSeed: int := 1

  // ---------------------------------------------------------------------------
  // equalIgnoreCase

  /** toupper in the "C" locale: the ASCII lower-case letters become upper case,
      every other character is left alone. */
  function ToUpper(c: char): (r: char)
    ensures 'A' <= r <= 'Z' <==> 'A' <= c <= 'Z' || 'a' <= c <= 'z'
    ensures !('a' <= r <= 'z')
    ensures !('a' <= c <= 'z') ==> r == c
  {
    if 'a' <= c <= 'z' then (c as int - 32) as char else c
  }

  /** Converting a character a second time changes nothing. */
  lemma ToUpperIdempotent(c: char)
    ensures ToUpper(ToUpper(c)) == ToUpper(c)
  {
  }

  /** The same length and the same characters position by position once both
      are converted with toupper. */
  predicate SameIgnoringCase(a: string, b: string)
  {
    |a| == |b| && forall i :: 0 <= i < |a| ==> ToUpper(a[i]) == ToUpper(b[i])
  }

  method EqualIgnoreCase(a: string, b: string) returns (r: bool)
    ensures r <==> SameIgnoringCase(a, b)
  {
    var len := |a|;
    if |b| != len {
      return false;
    }
    var i := 0;
    while i < len && ToUpper(a[i]) == ToUpper(b[i])
      invariant 0 <= i <= len
      invariant forall k :: 0 <= k < i ==> ToUpper(a[k]) == ToUpper(b[k])
    {
      i := i + 1;
    }
    return i == len;
  }

  /** The comparison is an equivalence. */
  lemma SameIgnoringCaseEquivalence(a: string, b: string, c: string)
    ensures SameIgnoringCase(a, a)
    ensures SameIgnoringCase(a, b) ==> SameIgnoringCase(b, a)
    ensures SameIgnoringCase(a, b) && SameIgnoringCase(b, c) ==> SameIgnoringCase(a, c)
  {
  }

  /** Exactly the four spellings of "on" compare equal to it. */
  lemma OnSpellings(v: string)
    ensures SameIgnoringCase(v, "on") <==> v in {"on", "On", "oN", "ON"}
  {
    if SameIgnoringCase(v, "on") {
      assert |v| == 2;
      assert v[0] == 'o' || v[0] == 'O' by {
        assert ToUpper(v[0]) == 'O';
      }
      assert v[1] == 'n' || v[1] == 'N' by {
        assert ToUpper(v[1]) == 'N';
      }
      assert v == [v[0], v[1]];
    }
  }

  // ---------------------------------------------------------------------------
  // checkParameter

  /** The failures checkParameter throws, one per check. */
  datatype ParamError =
    | NoInput | HubAndSubnet | BadCondition | NoControl | BadSigma | BadThreshold | BadPvalue
    | BadEps | BadPercent | BadMean | BadCv | BadCorrection | BadVerbose | BadNparLimit

  /** The position of each check in the order checkParameter makes them. */
  function Rank(e: ParamError): nat
  {
    match e
    case NoInput => 0
    case HubAndSubnet => 1
    case BadCondition => 2
    case NoControl => 3
    case BadSigma => 4
    case BadThreshold => 5
    case BadPvalue => 6
    case BadEps => 7
    case BadPercent => 8
    case BadMean => 9
    case BadCv => 10
    case BadCorrection => 11
    case BadVerbose => 12
    case BadNparLimit => 13
  }

  /** The text thrown for each failure. */
  function Message(e: ParamError): string
  {
    match e
    case NoInput => "No input file specified!"
    case HubAndSubnet => "Either supply one hub gene by '-h' or multiple genes in a file by '-s', but not both!"
    case BadCondition => "Condition must be '+' or '-'!"
    case NoControl => "Control gene ID must be specified using '-c'!"
    case BadSigma => "Kernel width '-k' must be within (0,1)!"
    case BadThreshold => "MI threshold '-t' must be nonnegative!"
    case BadPvalue => "P-value '-p' must be in the range (0,1]!"
    case BadEps => "DPI tolerance '-e' must be within [0,1]!"
    case BadPercent => "Percentage microarray must be within (0,1)!"
    case BadMean => "Gene filter mean must be nonnegative!"
    case BadCv => "Gene filter cv (coefficient of variance) must be nonnegative!"
    case BadCorrection => "Array measurement noise level '-n' must be nonnegative!"
    case BadVerbose => "Verbose '-v' must be 'on' or 'off'!"
    case BadNparLimit => "Maximum allowed value of npar must be positive!"
  }

  /** The hub after checkParameter: a non-empty hub gets the '_' that marker
      accessions carry. */
  function HubName(hub: string): (r: string)
    ensures r == "" <==> hub == ""
    ensures hub != "" ==> r[0] == '_' && r[1..] == hub
  {
    if hub == "" then "" else "_" + hub
  }

  /** std::string::find_last_of for one character: the last index holding `c`,
      or -1 (npos) when there is none. */
  function LastIndexOf(s: string, c: char): (r: int)
    ensures -1 <= r < |s|
    ensures r >= 0 ==> s[r] == c
    ensures forall j :: r < j < |s| ==> s[j] != c
  {
    if |s| == 0 then -1
    else if s[|s| - 1] == c then |s| - 1
    else LastIndexOf(s[..|s| - 1], c)
  }

  predicate EndsWithSlash(d: string)
  {
    |d| > 0 && d[|d| - 1] == '/'
  }

  /** home_dir after checkParameter: "./" is kept, and any other directory gets
      a '/' appended unless its last '/' is already its last character. */
  function NormalDir(d: string): (r: string)
    ensures EndsWithSlash(r)
    ensures r == d || r == d + "/"
    ensures r == d <==> EndsWithSlash(d)
  {
    if d == "./" then d
    else
      var b := LastIndexOf(d, '/');
      if b == -1 || b < |d| - 1 then d + "/" else d
  }

  /** Normalising twice is normalising once. */
  lemma NormalDirIdempotent(d: string)
    ensures NormalDir(NormalDir(d)) == NormalDir(d)
  {
  }

  /** The mutable parameter record. */
  class Parameter {
    var threshold: real
    var pvalue: real
    var eps: real
    var sigma: real
    var sample: int
    var percent: real
    var mean: real
    var cv: real
    var correction: real
    var nparLimit: int
    var seed: int
    var verbose: string
    var infile: string
    var outfile: string
    var adjfile: string
    var hub: string
    var subnetfile: string
    var annotfile: string
    var controlId: string
    var condition: string
    var homeDir: string
    var subnet: seq<string>
    var tfList: seq<string>

    /** Every numeric field at its default, verbose "off", home_dir "./", the
        lists empty (the input file is whatever it is). */
    predicate HasDefaults()
      reads this
    {
      threshold == DefaultThreshold && pvalue == DefaultPvalue && eps == DefaultEps &&
      sigma == DefaultSigma && sample == DefaultSample && percent == DefaultPercent &&
      mean == DefaultMean && cv == DefaultCv && correction == DefaultCorrection &&
      nparLimit == DefaultNparLimit && seed == DefaultSeed && verbose == "off" &&
      outfile == "" && adjfile == "" && hub == "" && subnetfile == "" && annotfile == "" &&
      controlId == "" && condition == "" && homeDir == "./" && subnet == [] && tfList == []
    }

    constructor()
      ensures HasDefaults() && infile == ""
    {
      threshold, pvalue, eps, sigma := DefaultThreshold, DefaultPvalue, DefaultEps, DefaultSigma;
      sample, percent, mean, cv := DefaultSample, DefaultPercent, DefaultMean, DefaultCv;
      correction, nparLimit, seed := DefaultCorrection, DefaultNparLimit, DefaultSeed;
      verbose, infile, outfile, adjfile, hub := "off", "", "", "", "";
      subnetfile, annotfile, controlId, condition, homeDir := "", "", "", "", "./";
      subnet, tfList := [], [];
    }

    /** Check e of checkParameter fails on the current values. The hub check is
        the same before and after the '_' prefix, which keeps an empty hub empty. */
    predicate Fails(e: ParamError)
      reads this
    {
      match e
      case NoInput => infile == ""
      case HubAndSubnet => subnetfile != "" && hub != ""
      case BadCondition => condition != "+" && condition != "-" && condition != ""
      case NoControl => (condition == "+" || condition == "-") && controlId == ""
      case BadSigma => sigma != DefaultSigma && (sigma <= 0.0 || sigma >= 1.0)
      case BadThreshold => threshold < 0.0
      case BadPvalue => pvalue <= 0.0 || pvalue > 1.0
      case BadEps => eps < 0.0 || eps > 1.0
      case BadPercent => percent <= 0.0 || percent >= 1.0
      case BadMean => mean < 0.0
      case BadCv => cv < 0.0
      case BadCorrection => correction < 0.0
      case BadVerbose => !SameIgnoringCase(verbose, "on") && !SameIgnoringCase(verbose, "off")
      case BadNparLimit => nparLimit < 1
    }

    /** The failure checkParameter throws on the current values, or none. */
    function CheckError(): (r: Option<ParamError>)
      reads this
    {
      if infile == "" then Some(NoInput)
      else if subnetfile != "" && hub != "" then Some(HubAndSubnet)
      else if condition != "+" && condition != "-" && condition != "" then Some(BadCondition)
      else if (condition == "+" || condition == "-") && controlId == "" then Some(NoControl)
      else if sigma != DefaultSigma && (sigma <= 0.0 || sigma >= 1.0) then Some(BadSigma)
      else if threshold < 0.0 then Some(BadThreshold)
      else if pvalue <= 0.0 || pvalue > 1.0 then Some(BadPvalue)
      else if eps < 0.0 || eps > 1.0 then Some(BadEps)
      else if percent <= 0.0 || percent >= 1.0 then Some(BadPercent)
      else if mean < 0.0 then Some(BadMean)
      else if cv < 0.0 then Some(BadCv)
      else if correction < 0.0 then Some(BadCorrection)
      else if !SameIgnoringCase(verbose, "on") && !SameIgnoringCase(verbose, "off") then Some(BadVerbose)
      else if nparLimit < 1 then Some(BadNparLimit)
      else None
    }

    /** checkParameter(p): throws the first failing check's message; otherwise
        prefixes the hub and normalises home_dir. The hub is prefixed as soon as
        the input file check has passed, even when a later check throws. */
    method CheckParameter() returns (outcome: Outcome<ParamError>)
      modifies this
      ensures outcome == match old(CheckError()) case None => Pass case Some(e) => Fail(e)
      ensures hub == if old(infile) == "" then old(hub) else HubName(old(hub))
      ensures homeDir == if outcome.Pass? then NormalDir(old(homeDir)) else old(homeDir)
      ensures unchanged(this`threshold, this`pvalue, this`eps, this`sigma, this`sample,
                        this`percent, this`mean, this`cv, this`correction, this`nparLimit,
                        this`seed, this`verbose, this`infile, this`outfile, this`adjfile)
      ensures unchanged(this`subnetfile, this`annotfile, this`controlId, this`condition,
                        this`subnet, this`tfList)
    {
      if infile == "" {
        return Fail(NoInput);
      }
      if hub != "" {
        hub := "_" + hub;
      }
      if subnetfile != "" && hub != "" {
        return Fail(HubAndSubnet);
      }
      if condition != "+" && condition != "-" && condition != "" {
        return Fail(BadCondition);
      }
      if (condition == "+" || condition == "-") && controlId == "" {
        return Fail(NoControl);
      }
      if sigma != DefaultSigma && (sigma <= 0.0 || sigma >= 1.0) {
        return Fail(BadSigma);
      }
      if threshold < 0.0 {
        return Fail(BadThreshold);
      }
      if pvalue <= 0.0 || pvalue > 1.0 {
        return Fail(BadPvalue);
      }
      if eps < 0.0 || eps > 1.0 {
        return Fail(BadEps);
      }
      if percent <= 0.0 || percent >= 1.0 {
        return Fail(BadPercent);
      }
      if mean < 0.0 {
        return Fail(BadMean);
      }
      if cv < 0.0 {
        return Fail(BadCv);
      }
      if correction < 0.0 {
        return Fail(BadCorrection);
      }
      var on := EqualIgnoreCase(verbose, "on");
      var off := EqualIgnoreCase(verbose, "off");
      if !on && !off {
        return Fail(BadVerbose);
      }
      if nparLimit < 1 {
        return Fail(BadNparLimit);
      }
      if homeDir != "./" {
        var len := |homeDir|;
        var b := LastIndexOf(homeDir, '/');
        if b == -1 || b < len - 1 {
          homeDir := homeDir + "/";
        }
      }
      return Pass;
    }

    /** createOutfileName(p): sets outfile and nothing else. */
    method CreateOutfileName(g3: real -> string, g2: real -> string)
      modifies this`outfile
      ensures outfile == OutfileName(infile, hub, controlId, condition, sigma, threshold, eps, sample, g3, g2)
    {
      var filename := GetFileName(infile);
      if hub != "" {
        filename := filename + ("_h" + hub);
      }
      assert filename == AppendIf(hub != "", GetFileName(infile), "_h" + hub);
      ghost var withHub := filename;
      if controlId != "" {
        filename := filename + ("_c" + controlId + (if condition == "+" then "H" else "L"));
      }
      assert filename == AppendIf(controlId != "", withHub, ControlTag(controlId, condition));
      filename := filename + "_k" + g3(sigma);
      ghost var withSigma := filename;
      if threshold > 0.0 {
        filename := filename + ("_t" + g2(threshold));
      }
      assert filename == AppendIf(threshold > 0.0, withSigma, "_t" + g2(threshold));
      ghost var withThreshold := filename;
      if eps < 1.0 {
        filename := filename + ("_e" + g2(eps));
      }
      assert filename == Stem(infile, hub, controlId, condition, sigma, threshold, eps, g3, g2);
      ghost var stem := filename;
      if sample > 0 {
        filename := filename + ("_r" + Pad3(sample));
      }
      assert filename == AppendIf(sample > 0, stem, RunTag(sample));
      outfile := filename + ".adj";
    }
  }

  /** checkParameter reports the first check, in source order, that fails: the
      failure it throws does fail and every earlier check passes, and it throws
      nothing exactly when no check fails. */
  lemma CheckErrorIsFirstFailure(p: Parameter)
    ensures p.CheckError().Some? ==>
      (p.Fails(p.CheckError().value) && forall e :: Rank(e) < Rank(p.CheckError().value) ==> !p.Fails(e))
    ensures p.CheckError().None? <==> forall e :: !p.Fails(e)
  {
  }

  /** The output file name createOutfileName builds from the parameters; `g3` and
      `g2` stand for sprintf's "%0.3g" and "%0.2g". */
  function OutfileName(infile: string, hub: string, controlId: string, condition: string, sigma: real,
                       threshold: real, eps: real, sample: int, g3: real -> string, g2: real -> string): string
  {
    var stem := Stem(infile, hub, controlId, condition, sigma, threshold, eps, g3, g2);
    AppendIf(sample > 0, stem, RunTag(sample)) + ".adj"
  }

  /** "_r" and the bootstrap run number as "%03i" prints it. */
  function RunTag(sample: int): string
  {
    if sample > 0 then "_r" + Pad3(sample) else ""
  }

  /** The name up to the run number: the stripped input file, then the optional
      hub, control gene and condition, the kernel width, the optional threshold
      and DPI tolerance. */
  function Stem(infile: string, hub: string, controlId: string, condition: string, sigma: real,
                threshold: real, eps: real, g3: real -> string, g2: real -> string): string
  {
    var withHub := AppendIf(hub != "", GetFileName(infile), "_h" + hub);
    var withControl := AppendIf(controlId != "", withHub, ControlTag(controlId, condition));
    var withSigma := withControl + "_k" + g3(sigma);
    var withThreshold := AppendIf(threshold > 0.0, withSigma, "_t" + g2(threshold));
    AppendIf(eps < 1.0, withThreshold, "_e" + g2(eps))
  }

  /** "_c", the control gene and H for the '+' condition, L otherwise. */
  function ControlTag(controlId: string, condition: string): string
  {
    "_c" + controlId + (if condition == "+" then "H" else "L")
  }

  /** The output name starts with the stripped input file name and ends in ".adj". */
  lemma OutfileNameShape(infile: string, hub: string, controlId: string, condition: string, sigma: real,
                         threshold: real, eps: real, sample: int, g3: real -> string, g2: real -> string)
    ensures var r := OutfileName(infile, hub, controlId, condition, sigma, threshold, eps, sample, g3, g2);
      EndsWith(r, ".adj") && StartsWith(r, GetFileName(infile))
  {
    var base := GetFileName(infile);
    assert base[..|base|] == base;
    var withHub := AppendIf(hub != "", base, "_h" + hub);
    Extend(base, base, hub != "", "_h" + hub);
    var withControl := AppendIf(controlId != "", withHub, ControlTag(controlId, condition));
    Extend(base, withHub, controlId != "", ControlTag(controlId, condition));
    Extend(base, withControl, true, "_k");
    var withSigma := withControl + "_k" + g3(sigma);
    Extend(base, withControl + "_k", true, g3(sigma));
    var withThreshold := AppendIf(threshold > 0.0, withSigma, "_t" + g2(threshold));
    Extend(base, withSigma, threshold > 0.0, "_t" + g2(threshold));
    var stem := AppendIf(eps < 1.0, withThreshold, "_e" + g2(eps));
    Extend(base, withThreshold, eps < 1.0, "_e" + g2(eps));
    assert stem == Stem(infile, hub, controlId, condition, sigma, threshold, eps, g3, g2);
    var withRun := AppendIf(sample > 0, stem, RunTag(sample));
    Extend(base, stem, sample > 0, RunTag(sample));
    Extend(base, withRun, true, ".adj");
    assert (withRun + ".adj")[|withRun|..] == ".adj";
  }

  /** A default parameter record with an input file passes every check, and its
      home directory "./" is kept as it is; without an input file the first check
      fails. */
  lemma DefaultsPass(p: Parameter)
    requires p.HasDefaults()
    ensures p.infile != "" ==> p.CheckError().None? && NormalDir(p.homeDir) == p.homeDir
    ensures p.infile == "" ==> p.CheckError() == Some(NoInput)
  {
    assert SameIgnoringCase(p.verbose, "off");
  }

  /** With none of the optional parts (no hub, no control gene, no threshold, the
      full DPI tolerance, no bootstrap run), the name is the stripped input file,
      the kernel width and ".adj". */
  lemma PlainOutfileName(infile: string, condition: string, sigma: real, threshold: real, eps: real,
                         sample: int, g3: real -> string, g2: real -> string)
    requires threshold <= 0.0 && eps >= 1.0 && sample <= 0
    ensures OutfileName(infile, "", "", condition, sigma, threshold, eps, sample, g3, g2) ==
            GetFileName(infile) + "_k" + g3(sigma) + ".adj"
  {
  }

  /** For a bootstrap run (sample > 0) the name ends in "_r", the run number padded
      to three digits, and ".adj"; the digits read back as the run number. */
  lemma RunNumberSuffix(infile: string, hub: string, controlId: string, condition: string, sigma: real,
                        threshold: real, eps: real, sample: int, g3: real -> string, g2: real -> string)
    requires sample > 0
    ensures EndsWith(OutfileName(infile, hub, controlId, condition, sigma, threshold, eps, sample, g3, g2),
                     "_r" + Pad3(sample) + ".adj")
    ensures DigitsValue(Pad3(sample)) == sample && |Pad3(sample)| >= 3
  {
    Pad3Value(sample);
    var stem := Stem(infile, hub, controlId, condition, sigma, threshold, eps, g3, g2);
    SuffixOfAppend(stem, RunTag(sample), ".adj");
  }

  lemma SuffixOfAppend(a: string, b: string, c: string)
    ensures EndsWith(a + b + c, b + c)
  {
    assert (a + b + c)[|a|..] == b + c;
  }

  /** `s` ends with `suffix`. */
  predicate EndsWith(s: string, suffix: string)
  {
    |suffix| <= |s| && s[|s| - |suffix|..] == suffix
  }

  /** `s` followed by `t` when `c` holds, else `s` alone: one optional part of a name. */
  function AppendIf(c: bool, s: string, t: string): string
  {
    if c then s + t else s
  }

  /** Appending keeps a prefix. */
  lemma Extend(p: string, x: string, c: bool, y: string)
    requires StartsWith(x, p)
    ensures StartsWith(AppendIf(c, x, y), p)
  {
    if c {
      assert (x + y)[..|p|] == x[..|p|];
    }
  }

  /** `s` starts with `prefix`. */
  predicate StartsWith(s: string, prefix: string)
  {
    |prefix| <= |s| && s[..|prefix|] == prefix
  }

  // ---------------------------------------------------------------------------
  // getFileName

  /** The part before the last '.', or all of `s` when it has none. */
  function StripExtension(s: string): (r: string)
    ensures |r| <= |s| && r == s[..|r|]
    ensures '.' !in s ==> r == s
  {
    var c := LastIndexOf(s, '.');
    if c != -1 then s[..c] else s
  }

  /** getFileName(matrixName): the directory (split at the last '/', else at the
      last '\\', re-joined with '/') followed by the file name without its last
      extension. */
  function GetFileName(name: string): (r: string)
    ensures |r| <= |name|
  {
    var slash := LastIndexOf(name, '/');
    var b := if slash == -1 then LastIndexOf(name, '\\') else slash;
    if b != -1 then name[..b] + "/" + StripExtension(name[b + 1..])
    else StripExtension(name)
  }

  /** The last `c` of s + [c] + t, when t has none, is the one between them. */
  lemma {:induction false} LastIndexOfAfter(s: string, c: char, t: string)
    requires c !in t
    ensures LastIndexOf(s + [c] + t, c) == |s|
    decreases |t|
  {
    var w := s + [c] + t;
    if |t| > 0 {
      assert w[|w| - 1] == t[|t| - 1];
      assert w[..|w| - 1] == s + [c] + t[..|t| - 1];
      LastIndexOfAfter(s, c, t[..|t| - 1]);
    }
  }

  /** A path dir/base.ext loses exactly its extension. */
  lemma FileNameDropsExtension(dir: string, base: string, ext: string)
    requires '/' !in base && '/' !in ext && '.' !in ext
    ensures GetFileName(dir + "/" + base + "." + ext) == dir + "/" + base
  {
    var file := base + "." + ext;
    var name := dir + "/" + file;
    assert dir + "/" + base + "." + ext == name;
    assert '/' !in file;
    LastIndexOfAfter(dir, '/', file);
    assert name[|dir| + 1..] == file;
    assert name[..|dir|] == dir;
    LastIndexOfAfter(base, '.', ext);
    assert file[..|base|] == base;
  }

  /** A bare file name with no extension and no directory comes back unchanged. */
  lemma PlainFileNameKept(name: string)
    requires '/' !in name && '\\' !in name && '.' !in name
    ensures GetFileName(name) == name
  {
  }

  /** A Windows-style directory is re-joined with '/'. */
  lemma BackslashBecomesSlash(dir: string, file: string)
    requires '/' !in dir && '/' !in file && '\\' !in file && '.' !in file
    ensures GetFileName(dir + "\\" + file) == dir + "/" + file
  {
    var name := dir + "\\" + file;
    assert '/' !in name;
    LastIndexOfAfter(dir, '\\', file);
    assert name[|dir| + 1..] == file;
    assert name[..|dir|] == dir;
  }
}
