/**
 * The command-line option matcher of argsparser.c.  A parser context holds
 * argv, the index of the next argument to read (opt_idx, starting at 1 past
 * the program name) and the registered options.  Each argv entry is a
 * NUL-terminated buffer; the parser writes a NUL over the first '=' of the
 * entry it reads and puts the '=' back before it returns.  A callback is a
 * function from its argument (NULL or a string) to an int; the error
 * handlers of the ParserConfig are recorded as a log of reports.  Whether
 * strdup can copy an argument is a parameter.
 */
module ArgsParser {
  import opened Common

  const DASH: byte := 45
  const EQUALS: byte := 61

  /** An option callback: NULL or the text of the argument, to an int status (0 is success). */
  type Callback = Option<Bytes> -> int

  /** A registered option; callback None is a NULL callback. */
  datatype OptionSpec = OptionSpec(name: Bytes, shortName: byte, description: Bytes, hasArg: bool, required: bool, callback: Option<Callback>)

  /** A call of one of the error handlers of the ParserConfig, with the text it was given. */
  datatype Report = UnknownOption(opt: Bytes) | MissingArgument(opt: Bytes) | MissingRequired(name: Bytes)

  /** strchr on a text: the index of the first byte c. */
  function FindByte(t: Bytes, c: byte): (r: Option<nat>)
    ensures r.Some? ==> r.value < |t| && t[r.value] == c && forall j :: 0 <= j < r.value ==> t[j] != c
    ensures r.None? ==> forall j :: 0 <= j < |t| ==> t[j] != c
  {
    if t == [] then None
    else if t[0] == c then Some(0)
    else match FindByte(t[1..], c)
      case None => None
      case Some(k) => Some(k + 1)
  }

  /** The text the parser compares while the first '=' is overwritten with NUL. */
  function Cut(t: Bytes): (c: Bytes)
    ensures |c| <= |t| && c == t[..|c|] && EQUALS !in c
  {
    match FindByte(t, EQUALS)
      case None => t
      case Some(e) => t[..e]
  }

  /** The value attached after the first '=', if any. */
  function Attached(t: Bytes): (v: Option<Bytes>)
    ensures v.Some? <==> EQUALS in t
    ensures v.Some? ==> t == Cut(t) + [EQUALS] + v.value
  {
    match FindByte(t, EQUALS)
      case None => None
      case Some(e) => Some(t[e + 1..])
  }

  /** The number of leading dashes the parser skips: 2 for "--", 1 for "-", 0 when the text does not start with '-'. */
  function Dashes(c: Bytes): (n: nat)
    ensures n <= |c| && (n > 0 <==> |c| > 0 && c[0] == DASH)
  {
    if |c| >= 2 && c[0] == DASH && c[1] == DASH then 2
    else if |c| >= 1 && c[0] == DASH then 1
    else 0
  }

  /** The byte at index 1 of a C string with text c: the NUL when c is shorter. */
  function Second(c: Bytes): byte
  {
    if |c| >= 2 then c[1] else 0
  }

  /** Option o is named by the dash-prefixed text c: its long name follows the dashes, or its short name is c[1] and that is not a dash. */
  predicate Names(o: OptionSpec, c: Bytes)
  {
    o.name == c[Dashes(c)..] || (Second(c) != DASH && Second(c) == o.shortName)
  }

  /** Named by c and with a callback: an option the scan stops at. */
  predicate Usable(o: OptionSpec, c: Bytes)
  {
    Names(o, c) && o.callback.Some?
  }

  /** The first option named by c that has a callback. */
  function FirstUsable(options: seq<OptionSpec>, c: Bytes): (r: Option<nat>)
    ensures r.Some? ==> r.value < |options| && Usable(options[r.value], c)
    ensures r.Some? ==> forall j :: 0 <= j < r.value ==> !Usable(options[j], c)
    ensures r.None? ==> forall j :: 0 <= j < |options| ==> !Usable(options[j], c)
  {
    if options == [] then None
    else if Usable(options[0], c) then Some(0)
    else match FirstUsable(options[1..], c)
      case None => None
      case Some(k) => Some(k + 1)
  }

  /** What _parse_option does: its result, opt_idx after it, the error handlers it calls, and whether argv is as before. */
  datatype Outcome = Outcome(ok: bool, optIdx: nat, reports: seq<Report>, restored: bool)

  /**
   * _parse_option on the argument with text t, opt_idx already past it.
   * A text not starting with '-' (once cut at '=') is unknown and the '='
   * is not put back; otherwise the first usable option decides, and with
   * none the option is unknown.
   */
  function ParseOutcome(options: seq<OptionSpec>, argv: seq<Bytes>, optIdx: nat, t: Bytes, dupOk: bool): (r: Outcome)
    ensures r.optIdx == optIdx || (r.optIdx == optIdx + 1 && optIdx < |argv|)
  {
    var c := Cut(t);
    if Dashes(c) == 0 then Outcome(false, optIdx, [UnknownOption(c)], false)
    else match FirstUsable(options, c)
      case None => Outcome(false, optIdx, [UnknownOption(t)], true)
      case Some(i) => Invoke(options[i], t, argv, optIdx, dupOk)
  }

  /**
   * The matched branch of _parse_option for option o: without has_arg the
   * callback gets NULL; with has_arg it gets the attached value or, failing
   * that, the next argument, which is consumed; with neither the argument
   * is missing.  A copy strdup cannot make is never passed and counts as
   * success.
   */
  function Invoke(o: OptionSpec, t: Bytes, argv: seq<Bytes>, optIdx: nat, dupOk: bool): (r: Outcome)
    requires o.callback.Some?
    ensures r.optIdx == optIdx || (r.optIdx == optIdx + 1 && optIdx < |argv|)
    ensures r.restored
  {
    var call := o.callback.value;
    if !o.hasArg then Outcome(call(None) == 0, optIdx, [], true)
    else if Attached(t).Some? then Outcome(!dupOk || call(Attached(t)) == 0, optIdx, [], true)
    else if optIdx < |argv| then Outcome(!dupOk || call(Some(Chars(argv[optIdx]))) == 0, optIdx + 1, [], true)
    else Outcome(false, optIdx, [MissingArgument(t)], true)
  }

  /** The buffer while _parse_option reads it: the first '=' of the text overwritten with NUL. */
  function CutBuffer(entry: Bytes): Bytes
  {
    match FindByte(Chars(entry), EQUALS)
      case None => entry
      case Some(e) => entry[e := 0]
  }

  /** The state hc_parser_parse's loop leaves: its verdict, the final opt_idx and the log of reports. */
  datatype ScanResult = ScanResult(ok: bool, optIdx: nat, reports: seq<Report>)

  /**
   * The scan of hc_parser_parse: each argument from opt_idx is read and
   * opt_idx advanced; an argument not starting with '-' is unknown, any
   * other goes through _parse_option; the scan stops at the first failure.
   * reports is the log so far, to which each round appends.
   */
  function Scan(options: seq<OptionSpec>, argv: seq<Bytes>, optIdx: nat, dupOk: nat -> bool, reports: seq<Report>): ScanResult
    decreases |argv| - optIdx
  {
    if optIdx >= |argv| then ScanResult(true, optIdx, reports)
    else
      var t := Chars(argv[optIdx]);
      if t == [] || t[0] != DASH then ScanResult(false, optIdx + 1, reports + [UnknownOption(t)])
      else
        var o := ParseOutcome(options, argv, optIdx + 1, t, dupOk(optIdx));
        if !o.ok then ScanResult(false, o.optIdx, reports + o.reports)
        else Scan(options, argv, o.optIdx, dupOk, reports + o.reports)
  }

  /** argv[j] counts as a use of o: it is "--" followed by the long name, or '-' followed by the short name. */
  predicate Mentions(o: OptionSpec, t: Bytes)
  {
    (|t| >= 2 && t[0] == DASH && t[1] == DASH && t[2..] == o.name) || (|t| >= 1 && t[0] == DASH && Second(t) == o.shortName)
  }

  /** Some argument after the program name uses o. */
  predicate Present(o: OptionSpec, argv: seq<Bytes>)
  {
    exists j :: 1 <= j < |argv| && Mentions(o, Chars(argv[j]))
  }

  /** The first required option that no argument uses. */
  function FirstMissing(options: seq<OptionSpec>, argv: seq<Bytes>): (r: Option<nat>)
    ensures r.Some? ==> r.value < |options| && options[r.value].required && !Present(options[r.value], argv)
    ensures r.Some? ==> forall j :: 0 <= j < r.value ==> options[j].required ==> Present(options[j], argv)
    ensures r.None? ==> forall j :: 0 <= j < |options| ==> options[j].required ==> Present(options[j], argv)
  {
    if options == [] then None
    else if options[0].required && !Present(options[0], argv) then Some(0)
    else match FirstMissing(options[1..], argv)
      case None => None
      case Some(k) => Some(k + 1)
  }

  /** The report of _check_required_options. */
  function MissingReports(options: seq<OptionSpec>, argv: seq<Bytes>): seq<Report>
  {
    match FirstMissing(options, argv)
      case None => []
      case Some(i) => [MissingRequired(options[i].name)]
  }

  /** Writing the NUL over the '=' at e cuts the text there and leaves the bytes after it. */
  lemma CutAt(entry: Bytes, e: nat)
    requires Terminated(entry) && e < CStrLen(entry)
    ensures Terminated(entry[e := 0]) && Chars(entry[e := 0]) == Chars(entry)[..e]
    ensures Terminated(entry[e + 1..]) && Chars(entry[e + 1..]) == Chars(entry)[e + 1..]
  {
    var b := entry[e := 0];
    assert CStrLen(b) == e by {
      NulAt(b, e);
    }
    assert Chars(b) == Chars(entry)[..e];
    var rest := entry[e + 1..];
    assert CStrLen(rest) == CStrLen(entry) - (e + 1) by {
      NulAt(rest, CStrLen(entry) - (e + 1));
    }
  }

  /** A buffer whose first NUL is at n has C length n. */
  lemma NulAt(b: Bytes, n: nat)
    requires n < |b| && b[n] == 0 && forall j :: 0 <= j < n ==> b[j] != 0
    ensures CStrLen(b) == n
  {
  }

  /** The byte at index 1 of a buffer whose text starts with '-' is Second of its text. */
  lemma SecondByte(b: Bytes)
    requires Terminated(b) && CStrLen(b) > 0
    ensures |b| >= 2 && b[1] == Second(Chars(b))
  {
  }

  /**
   * An argument starting with '-' is always put back: _parse_option leaves
   * argv as it found it on every path hc_parser_parse can reach.
   */
  lemma DashRestored(options: seq<OptionSpec>, argv: seq<Bytes>, optIdx: nat, t: Bytes, dupOk: bool)
    requires t != [] && t[0] == DASH
    ensures ParseOutcome(options, argv, optIdx, t, dupOk).restored
  {
    assert Cut(t) != [] && Cut(t)[0] == DASH;
  }

  /**
   * A successful scan reads every argument, opt_idx ending at argc (or
   * where it was, past it), and reports nothing.
   */
  lemma {:induction false} ScanConsumesAll(options: seq<OptionSpec>, argv: seq<Bytes>, optIdx: nat, dupOk: nat -> bool, reports: seq<Report>)
    ensures Scan(options, argv, optIdx, dupOk, reports).ok ==> Scan(options, argv, optIdx, dupOk, reports).optIdx == Max(optIdx, |argv|)
    ensures Scan(options, argv, optIdx, dupOk, reports).ok ==> Scan(options, argv, optIdx, dupOk, reports).reports == reports
    decreases |argv| - optIdx
  {
    if optIdx < |argv| {
      var t := Chars(argv[optIdx]);
      if t != [] && t[0] == DASH {
        var o := ParseOutcome(options, argv, optIdx + 1, t, dupOk(optIdx));
        if o.ok {
          OkSilent(options, argv, optIdx + 1, t, dupOk(optIdx));
          assert reports + o.reports == reports;
          ScanConsumesAll(options, argv, o.optIdx, dupOk, reports);
        }
      }
    }
  }

  /** _parse_option reports nothing when it succeeds. */
  lemma OkSilent(options: seq<OptionSpec>, argv: seq<Bytes>, optIdx: nat, t: Bytes, dupOk: bool)
    ensures ParseOutcome(options, argv, optIdx, t, dupOk).ok ==> ParseOutcome(options, argv, optIdx, t, dupOk).reports == []
  {
  }

  /** With no option registered, the scan succeeds exactly when no argument is left to read. */
  lemma ScanNoOptions(argv: seq<Bytes>, optIdx: nat, dupOk: nat -> bool, reports: seq<Report>)
    ensures Scan([], argv, optIdx, dupOk, reports).ok <==> optIdx >= |argv|
  {
  }

  /**
   * "--name=value" selects the option for the scan, with value attached,
   * but does not count as a use of it for the required check.
   */
  lemma AttachedNotPresent(o: OptionSpec, v: Bytes)
    requires EQUALS !in o.name && o.shortName != DASH
    ensures var t := [DASH, DASH] + o.name + [EQUALS] + v;
            Names(o, Cut(t)) && Attached(t) == Some(v) && !Mentions(o, t)
  {
    var t := [DASH, DASH] + o.name + [EQUALS] + v;
    var e := 2 + |o.name|;
    assert t[e] == EQUALS;
    assert forall j :: 0 <= j < e ==> t[j] != EQUALS by {
      forall j | 0 <= j < e
        ensures t[j] != EQUALS
      {
        if j >= 2 {
          assert t[j] == o.name[j - 2];
        }
      }
    }
    var r := FindByte(t, EQUALS);
    assert r == Some(e);
    assert Cut(t) == [DASH, DASH] + o.name;
    assert Cut(t)[2..] == o.name;
    assert t[e + 1..] == v;
    assert |t[2..]| > |o.name|;
  }

  class ParserContext {
    var argv: seq<Bytes>
    var optIdx: nat
    var options: seq<OptionSpec>
    var reports: seq<Report>

    /** Every argument is a NUL-terminated buffer. */
    ghost predicate Valid()
      reads this
    {
      forall j :: 0 <= j < |argv| ==> Terminated(argv[j])
    }

    /** hc_parser_init: the arguments, opt_idx 1 past the program name, no options. */
    constructor (args: seq<Bytes>)
      requires forall j :: 0 <= j < |args| ==> Terminated(args[j])
      ensures Valid() && argv == args && optIdx == 1 && options == [] && reports == []
    {
      argv := args;
      optIdx := 1;
      options := [];
      reports := [];
    }

    /**
     * _parse_option on argv[a], opt_idx already past it: the '=' cut, the
     * dash test, then the scan of the options.
     */
    method ParseOption(a: nat, dupOk: bool) returns (ok: bool)
      requires Valid() && a < |argv|
      modifies this
      ensures Valid() && options == old(options)
      ensures ok == ParseOutcome(old(options), old(argv), old(optIdx), Chars(old(argv)[a]), dupOk).ok
      ensures optIdx == ParseOutcome(old(options), old(argv), old(optIdx), Chars(old(argv)[a]), dupOk).optIdx
      ensures reports == old(reports) + ParseOutcome(old(options), old(argv), old(optIdx), Chars(old(argv)[a]), dupOk).reports
      ensures argv == if ParseOutcome(old(options), old(argv), old(optIdx), Chars(old(argv)[a]), dupOk).restored then old(argv) else old(argv)[a := CutBuffer(old(argv)[a])]
    {
      var equals := CutEquals(a);
      var opt := argv[a];
      if opt[0] != DASH {
        reports := reports + [UnknownOption(Chars(opt))];
        return false;
      }
      var found := Lookup(opt);
      if found.Some? {
        ok := Dispatch(a, options[found.value], equals, dupOk, old(argv));
      } else {
        Restore(a, equals, old(argv));
        reports := reports + [UnknownOption(Chars(argv[a]))];
        ok := false;
      }
    }

    /** The '=' cut of _parse_option: a NUL over the first '=' of argv[a], whose index is returned. */
    method CutEquals(a: nat) returns (equals: Option<nat>)
      requires Valid() && a < |argv|
      modifies this
      ensures equals == FindByte(Chars(old(argv)[a]), EQUALS)
      ensures argv == old(argv)[a := CutBuffer(old(argv)[a])]
      ensures Terminated(argv[a]) && Chars(argv[a]) == Cut(Chars(old(argv)[a]))
      ensures optIdx == old(optIdx) && options == old(options) && reports == old(reports)
    {
      equals := FindByte(Chars(argv[a]), EQUALS);
      if equals.Some? {
        CutAt(argv[a], equals.value);
        var cut: Bytes := argv[a][equals.value := 0];
        argv := argv[a := cut];
      }
    }

    /** Putting the '=' back over the NUL restores argv[a]. */
    method Restore(a: nat, equals: Option<nat>, ghost orig: seq<Bytes>)
      requires a < |orig| && Terminated(orig[a])
      requires equals == FindByte(Chars(orig[a]), EQUALS)
      requires argv == orig[a := CutBuffer(orig[a])]
      modifies this
      ensures argv == orig
      ensures optIdx == old(optIdx) && options == old(options) && reports == old(reports)
    {
      if equals.Some? {
        var back: Bytes := argv[a][equals.value := EQUALS];
        assert back == orig[a];
        argv := argv[a := back];
      }
    }

    /** The walk over the options: the first one the dash-prefixed text opt names that has a callback. */
    method Lookup(opt: Bytes) returns (r: Option<nat>)
      requires Terminated(opt) && opt[0] == DASH
      ensures r == FirstUsable(options, Chars(opt))
    {
      SecondByte(opt);
      var skip := if opt[1] == DASH then 2 else 1;
      var i := 0;
      while i < |options|
        invariant i <= |options| && forall j :: 0 <= j < i ==> !Usable(options[j], Chars(opt))
      {
        var option := options[i];
        if (Chars(opt)[skip..] == option.name || (opt[1] != DASH && opt[1] == option.shortName)) && option.callback.Some? {
          FirstUsableAt(options, Chars(opt), i);
          return Some(i);
        }
        i := i + 1;
      }
      r := None;
    }

    /** The matched branch of _parse_option: the callback of option is called with its argument, or the argument is missing. */
    method Dispatch(a: nat, option: OptionSpec, equals: Option<nat>, dupOk: bool, ghost orig: seq<Bytes>) returns (ok: bool)
      requires a < |orig| && Terminated(orig[a]) && option.callback.Some?
      requires equals == FindByte(Chars(orig[a]), EQUALS)
      requires argv == orig[a := CutBuffer(orig[a])]
      modifies this
      ensures argv == orig && options == old(options)
      ensures ok == Invoke(option, Chars(orig[a]), orig, old(optIdx), dupOk).ok
      ensures optIdx == Invoke(option, Chars(orig[a]), orig, old(optIdx), dupOk).optIdx
      ensures reports == old(reports) + Invoke(option, Chars(orig[a]), orig, old(optIdx), dupOk).reports
    {
      var call := option.callback.value;
      var ret := 0;
      if option.hasArg {
        if equals.Some? {
          CutAt(orig[a], equals.value);
          if dupOk {
            ret := call(Some(Chars(argv[a][equals.value + 1..])));
          }
          Restore(a, equals, orig);
          return ret == 0;
        } else if optIdx < |argv| {
          var next := argv[optIdx];
          optIdx := optIdx + 1;
          if dupOk {
            ret := call(Some(Chars(next)));
          }
          return ret == 0;
        } else {
          reports := reports + [MissingArgument(Chars(argv[a]))];
          return false;
        }
      }
      ret := call(None);
      Restore(a, equals, orig);
      return ret == 0;
    }

    /** The loop of hc_parser_parse: every argument from opt_idx on, until one fails. */
    method ScanAll(dupOk: nat -> bool) returns (ok: bool)
      requires Valid()
      modifies this
      ensures Valid() && argv == old(argv) && options == old(options)
      ensures ScanResult(ok, optIdx, reports) == Scan(options, argv, old(optIdx), dupOk, old(reports))
    {
      ok := true;
      while ok && optIdx < |argv|
        invariant Valid() && argv == old(argv) && options == old(options)
        invariant ok ==> Scan(options, argv, optIdx, dupOk, reports) == Scan(options, argv, old(optIdx), dupOk, old(reports))
        invariant !ok ==> ScanResult(false, optIdx, reports) == Scan(options, argv, old(optIdx), dupOk, old(reports))
        decreases |argv| - optIdx, ok
      {
        var more := Step(dupOk);
        if !more {
          ok := false;
        }
      }
    }

    /**
     * One round of hc_parser_parse's loop: argv[opt_idx] is read and opt_idx
     * advanced; an argument not starting with '-' is unknown, any other goes
     * through _parse_option.
     */
    method Step(dupOk: nat -> bool) returns (ok: bool)
      requires Valid() && optIdx < |argv|
      modifies this
      ensures Valid() && argv == old(argv) && options == old(options) && optIdx > old(optIdx)
      ensures ok ==> Scan(options, argv, optIdx, dupOk, reports) == Scan(options, argv, old(optIdx), dupOk, old(reports))
      ensures !ok ==> ScanResult(false, optIdx, reports) == Scan(options, argv, old(optIdx), dupOk, old(reports))
    {
      var a := optIdx;
      optIdx := optIdx + 1;
      var arg := argv[a];
      if arg[0] == DASH {
        DashRestored(options, argv, optIdx, Chars(arg), dupOk(a));
        ok := ParseOption(a, dupOk(a));
      } else {
        reports := reports + [UnknownOption(Chars(arg))];
        ok := false;
      }
    }

    /** _check_required_options: the first required option no argument uses is reported and the result is false. */
    method CheckRequired() returns (ok: bool)
      requires Valid()
      modifies this
      ensures Valid() && argv == old(argv) && optIdx == old(optIdx) && options == old(options)
      ensures ok == FirstMissing(options, argv).None?
      ensures reports == old(reports) + MissingReports(options, argv)
    {
      var i := 0;
      while i < |options|
        invariant Valid() && argv == old(argv) && optIdx == old(optIdx) && options == old(options)
        invariant i <= |options| && forall j :: 0 <= j < i ==> options[j].required ==> Present(options[j], argv)
        invariant reports == old(reports)
      {
        if options[i].required {
          var found := Uses(options[i]);
          if !found {
            MissingAt(options, argv, i);
            reports := reports + [MissingRequired(options[i].name)];
            return false;
          }
        }
        i := i + 1;
      }
      NoneMissing(options, argv);
      ok := true;
    }

    /** The inner walk of _check_required_options: whether some argument after the program name uses o. */
    method Uses(o: OptionSpec) returns (found: bool)
      requires Valid()
      ensures found <==> Present(o, argv)
    {
      var j := 1;
      while j < |argv|
        invariant 1 <= j && forall q :: 1 <= q < j && q < |argv| ==> !Mentions(o, Chars(argv[q]))
      {
        var arg := argv[j];
        if arg[0] == DASH && arg[1] == DASH && Chars(arg)[2..] == o.name {
          return true;
        }
        if arg[0] == DASH && arg[1] == o.shortName {
          SecondByte(arg);
          return true;
        }
        if arg[0] == DASH {
          SecondByte(arg);
        }
        j := j + 1;
      }
      found := false;
    }
  }

  lemma FirstUsableAt(options: seq<OptionSpec>, c: Bytes, i: nat)
    requires i < |options| && Usable(options[i], c)
    requires forall j :: 0 <= j < i ==> !Usable(options[j], c)
    ensures FirstUsable(options, c) == Some(i)
  {
    var r := FirstUsable(options, c);
    assert r.Some?;
    assert !(r.value < i) && !(r.value > i);
  }

  /** hc_parser_init: NULL when the context cannot be allocated; otherwise opt_idx 1 and no options. */
  method ParserInit(args: seq<Bytes>, allocOk: bool) returns (ctx: ParserContext?)
    requires forall j :: 0 <= j < |args| ==> Terminated(args[j])
    ensures ctx != null <==> allocOk
    ensures ctx != null ==> fresh(ctx) && ctx.Valid() && ctx.argv == args && ctx.optIdx == 1 && ctx.options == [] && ctx.reports == []
  {
    if !allocOk {
      return null;
    }
    ctx := new ParserContext(args);
  }

  /**
   * hc_parser_add_option: false for a NULL context or when the options
   * array cannot grow; otherwise the option, with copies of its name and
   * description, is appended.
   */
  method AddOption(ctx: ParserContext?, name: Bytes, shortName: byte, description: Bytes, hasArg: bool, required: bool, callback: Option<Callback>, allocOk: bool) returns (r: bool)
    requires Terminated(name) && Terminated(description)
    modifies ctx
    ensures r <==> ctx != null && allocOk
    ensures ctx != null ==> ctx.options == old(ctx.options) + if r then [OptionSpec(Chars(name), shortName, Chars(description), hasArg, required, callback)] else []
    ensures ctx != null ==> ctx.argv == old(ctx.argv) && ctx.optIdx == old(ctx.optIdx) && ctx.reports == old(ctx.reports)
  {
    if ctx == null || !allocOk {
      return false;
    }
    ctx.options := ctx.options + [OptionSpec(Chars(name), shortName, Chars(description), hasArg, required, callback)];
    r := true;
  }

  /**
   * hc_parser_parse: false for a NULL context; otherwise the scan, and the
   * required-option check only when the scan succeeded.
   */
  method Parse(ctx: ParserContext?, dupOk: nat -> bool) returns (success: bool)
    requires ctx != null ==> ctx.Valid()
    modifies ctx
    ensures ctx == null ==> !success
    ensures ctx != null ==> ctx.Valid() && ctx.argv == old(ctx.argv) && ctx.options == old(ctx.options)
    ensures ctx != null ==> ctx.optIdx == Scan(old(ctx.options), old(ctx.argv), old(ctx.optIdx), dupOk, old(ctx.reports)).optIdx
    ensures ctx != null ==> success == (Scan(old(ctx.options), old(ctx.argv), old(ctx.optIdx), dupOk, old(ctx.reports)).ok && FirstMissing(old(ctx.options), old(ctx.argv)).None?)
    ensures ctx != null ==> ctx.reports == Scan(old(ctx.options), old(ctx.argv), old(ctx.optIdx), dupOk, old(ctx.reports)).reports
                              + if Scan(old(ctx.options), old(ctx.argv), old(ctx.optIdx), dupOk, old(ctx.reports)).ok then MissingReports(old(ctx.options), old(ctx.argv)) else []
  {
    if ctx == null {
      return false;
    }
    success := ctx.ScanAll(dupOk);
    if success {
      success := ctx.CheckRequired();
    }
  }

  lemma MissingAt(options: seq<OptionSpec>, argv: seq<Bytes>, i: nat)
    requires i < |options| && options[i].required && !Present(options[i], argv)
    requires forall j :: 0 <= j < i ==> options[j].required ==> Present(options[j], argv)
    ensures FirstMissing(options, argv) == Some(i)
  {
    var r := FirstMissing(options, argv);
    assert r.Some?;
    assert !(r.value < i) && !(r.value > i);
  }

  lemma NoneMissing(options: seq<OptionSpec>, argv: seq<Bytes>)
    requires forall j :: 0 <= j < |options| ==> options[j].required ==> Present(options[j], argv)
    ensures FirstMissing(options, argv).None?
  {
  }
}
