/** `parse_cli_args`: the process arguments folded, left to right, into an
    options record that starts from fixed defaults. */
module CliArgs {
  import opened PhpValues

  /** The `license_type` option: a demo licence or a commercial ("src") one. */
  datatype LicenseType = Demo | Src {
    /** The string the script stores and sends as `licence_type`. */
    function Name(): string {
      match this
      case Demo => "demo"
      case Src => "src"
    }
  }

  /** The options record. Value-bearing options keep what the flag carried:
      a string, or `true` when the flag was given without `=`. */
  datatype Options = Options(
    action: Value,
    edition: Value,
    licenseType: LicenseType,
    licenseKey: Value,
    lang: Value,
    auto: bool,
    verbose: bool,
    help: bool)

  /** The record before any argument is read. The default language is "ru",
      although the help text announces "en". */
  const Defaults: Options :=
    Options(Str(""), Str("start"), Demo, Str(""), Str("ru"), false, false, false)

  /** The flag names the parser acts on; every other name is ignored. */
  const KnownFlags: set<string> :=
    {"action", "edition", "demo", "commercial", "license-key", "lang", "auto", "verbose", "help"}

  /** The flags whose value is stored in the record. */
  const ValueFlags: set<string> := {"action", "edition", "license-key", "lang"}

  /** Only arguments that begin with "--" are looked at. */
  predicate IsFlag(arg: string) {
    |arg| >= 2 && arg[0] == '-' && arg[1] == '-'
  }

  /** The flag's name: the text after "--" up to the first '=' (or the end). */
  function FlagName(arg: string): string
    requires IsFlag(arg)
  {
    ExplodeSpec(arg);
    Explode(arg)[0][2..]
  }

  /** The name runs from after "--" to just before the first '='. */
  lemma FlagNameSpec(arg: string)
    requires IsFlag(arg)
    ensures Separator !in FlagName(arg)
    ensures "--" + FlagName(arg) <= arg
    ensures |FlagName(arg)| + 2 < |arg| ==> arg[|FlagName(arg)| + 2] == Separator
  {
    ExplodeSpec(arg);
    var head := Explode(arg)[0];
    assert "--" + head[2..] == head;
  }

  /** The flag's value: the text between the first and the second '=',
      or `true` for a flag with no '='. */
  function FlagValue(arg: string): Value {
    var parts := Explode(arg);
    if |parts| > 1 then Str(parts[1]) else True
  }

  /** A flag carries `true` exactly when it has no '=', and a string value
      never contains '='. */
  lemma FlagValueSpec(arg: string)
    ensures FlagValue(arg) == True <==> Separator !in arg
    ensures FlagValue(arg).Str? ==> Separator !in FlagValue(arg).s
  {
    ExplodeSpec(arg);
  }

  /** `arg` is the flag `--name` or `--name=...`. */
  predicate Names(arg: string, name: string) {
    IsFlag(arg) && FlagName(arg) == name
  }

  /** `arg` is a flag the parser acts on. */
  predicate Recognised(arg: string) {
    IsFlag(arg) && FlagName(arg) in KnownFlags
  }

  /** One step of the fold: the switch over the flag name. */
  function ApplyArg(o: Options, arg: string): Options {
    if !IsFlag(arg) then o
    else
      var value := FlagValue(arg);
      var name := FlagName(arg);
      if name == "action" then o.(action := value)
      else if name == "edition" then o.(edition := value)
      else if name == "demo" then o.(licenseType := Demo)
      else if name == "commercial" then o.(licenseType := Src)
      else if name == "license-key" then o.(licenseKey := value, licenseType := Src)
      else if name == "lang" then o.(lang := value)
      else if name == "auto" then o.(auto := true)
      else if name == "verbose" then o.(verbose := true)
      else if name == "help" then o.(help := true)
      else o
  }

  /** The options after reading every argument, first to last. */
  function ParseArgs(argv: seq<string>): Options
    decreases |argv|
  {
    if argv == [] then Defaults
    else ApplyArg(ParseArgs(argv[..|argv| - 1]), argv[|argv| - 1])
  }

  /** The stored value of a value-bearing flag. */
  function Setting(o: Options, name: string): Value
    requires name in ValueFlags
  {
    if name == "action" then o.action
    else if name == "edition" then o.edition
    else if name == "license-key" then o.licenseKey
    else o.lang
  }

  /** The loop of `parse_cli_args`, updating the record in place. */
  method ParseCliArgs(argv: seq<string>) returns (options: Options)
    ensures options == ParseArgs(argv)
  {
    options := Defaults;
    var i := 0;
    while i < |argv|
      invariant 0 <= i <= |argv|
      invariant options == ParseArgs(argv[..i])
    {
      var arg := argv[i];
      if IsFlag(arg) {
        var parts := Explode(arg);
        var param := FlagName(arg);
        var value := if |parts| > 1 then Str(parts[1]) else True;
        if param == "action" {
          options := options.(action := value);
        } else if param == "edition" {
          options := options.(edition := value);
        } else if param == "demo" {
          options := options.(licenseType := Demo);
        } else if param == "commercial" {
          options := options.(licenseType := Src);
        } else if param == "license-key" {
          options := options.(licenseKey := value);
          options := options.(licenseType := Src);
        } else if param == "lang" {
          options := options.(lang := value);
        } else if param == "auto" {
          options := options.(auto := true);
        } else if param == "verbose" {
          options := options.(verbose := true);
        } else if param == "help" {
          options := options.(help := true);
        }
      }
      assert argv[..i + 1][..i] == argv[..i];
      i := i + 1;
    }
    assert argv[..|argv|] == argv;
  }

  // ---------------------------------------------------------------------
  // How flags are read

  /** `--name=v` and `--name=v=...`: the name, and the value up to the
      second '=' (later '='-pieces are dropped). */
  lemma FlagWithValue(name: string, v: string, rest: string)
    requires Separator !in name && Separator !in v
    requires rest == "" || rest[0] == Separator
    ensures Names("--" + name + [Separator] + v + rest, name)
    ensures FlagValue("--" + name + [Separator] + v + rest) == Str(v)
  {
    var arg := "--" + name + [Separator] + v + rest;
    var tail := v + rest;
    assert arg == ("--" + name) + ([Separator] + tail);
    ExplodePrefix("--" + name, [Separator] + tail);
    assert ([Separator] + tail)[1..] == tail;
    assert Explode([Separator] + tail) == [""] + Explode(tail);
    ExplodePrefix(v, rest);
    assert Explode(rest)[0] == "" by {
      if rest != "" {
        assert Explode(rest) == [""] + Explode(rest[1..]);
      }
    }
    assert Explode(tail)[0] == v;
    var parts := Explode(arg);
    assert parts[0] == "--" + name;
    assert parts[1] == v;
    assert ("--" + name)[2..] == name;
  }

  /** A bare `--name` is recognised by its name and carries `true`. */
  lemma BareFlag(name: string)
    requires Separator !in name
    ensures Names("--" + name, name)
    ensures FlagValue("--" + name) == True
  {
    ExplodePrefix("--" + name, "");
    assert "--" + name + "" == "--" + name;
    assert ("--" + name)[2..] == name;
  }

  // ---------------------------------------------------------------------
  // Properties of the fold

  /** The arguments the parser acts on, in order. */
  function RecognisedArgs(argv: seq<string>): (r: seq<string>)
    ensures forall i :: 0 <= i < |r| ==> Recognised(r[i])
    decreases |argv|
  {
    if argv == [] then []
    else
      var last := argv[|argv| - 1];
      RecognisedArgs(argv[..|argv| - 1]) + (if Recognised(last) then [last] else [])
  }

  /** Arguments that are not `--` flags, and flags of unknown names, leave
      the record unchanged wherever they stand. */
  lemma {:induction false} OnlyRecognisedArgsMatter(argv: seq<string>)
    ensures ParseArgs(argv) == ParseArgs(RecognisedArgs(argv))
    decreases |argv|
  {
    if argv != [] {
      var init, last := argv[..|argv| - 1], argv[|argv| - 1];
      OnlyRecognisedArgsMatter(init);
      if Recognised(last) {
        var r := RecognisedArgs(init) + [last];
        assert RecognisedArgs(argv) == r;
        assert r[..|r| - 1] == RecognisedArgs(init);
        assert ParseArgs(r) == ApplyArg(ParseArgs(RecognisedArgs(init)), last);
      } else {
        assert RecognisedArgs(argv) == RecognisedArgs(init);
        assert ApplyArg(ParseArgs(init), last) == ParseArgs(init);
      }
    }
  }

  /** With no recognised flag the result is exactly the defaults. */
  lemma {:induction false} NoFlagsGiveDefaults(argv: seq<string>)
    requires forall i :: 0 <= i < |argv| ==> !Recognised(argv[i])
    ensures ParseArgs(argv) == Defaults
    decreases |argv|
  {
    if argv != [] {
      NoFlagsGiveDefaults(argv[..|argv| - 1]);
    }
  }

  /** For a repeated value-bearing flag the last occurrence wins. */
  lemma {:induction false} LastOccurrenceWins(argv: seq<string>, i: nat, name: string)
    requires name in ValueFlags
    requires i < |argv| && Names(argv[i], name)
    requires forall j :: i < j < |argv| ==> !Names(argv[j], name)
    ensures Setting(ParseArgs(argv), name) == FlagValue(argv[i])
    decreases |argv|
  {
    if i < |argv| - 1 {
      LastOccurrenceWins(argv[..|argv| - 1], i, name);
    }
  }

  /** A value-bearing flag that is never given keeps its default. */
  lemma {:induction false} AbsentFlagKeepsDefault(argv: seq<string>, name: string)
    requires name in ValueFlags
    requires forall j :: 0 <= j < |argv| ==> !Names(argv[j], name)
    ensures Setting(ParseArgs(argv), name) == Setting(Defaults, name)
    decreases |argv|
  {
    if argv != [] {
      AbsentFlagKeepsDefault(argv[..|argv| - 1], name);
    }
  }

  /** The switches `--auto`, `--verbose` and `--help`. */
  const Switches: set<string> := {"auto", "verbose", "help"}

  /** The stored state of a switch. */
  function SwitchOn(o: Options, name: string): bool
    requires name in Switches
  {
    if name == "auto" then o.auto else if name == "verbose" then o.verbose else o.help
  }

  /** One argument turns a switch on exactly when it names it. */
  lemma ApplyArgSwitch(o: Options, arg: string, name: string)
    requires name in Switches
    ensures SwitchOn(ApplyArg(o, arg), name) == (SwitchOn(o, name) || Names(arg, name))
  {
  }

  /** A switch is on exactly when it occurs, with or without a value. */
  lemma {:induction false} SwitchOnIffGiven(argv: seq<string>, name: string)
    requires name in Switches
    ensures SwitchOn(ParseArgs(argv), name) <==> exists i :: 0 <= i < |argv| && Names(argv[i], name)
    decreases |argv|
  {
    if argv != [] {
      var n := |argv| - 1;
      var init := argv[..n];
      SwitchOnIffGiven(init, name);
      ApplyArgSwitch(ParseArgs(init), argv[n], name);
      if exists i :: 0 <= i < n && Names(init[i], name) {
        var i :| 0 <= i < n && Names(init[i], name);
        assert Names(argv[i], name);
      }
      if exists i :: 0 <= i < |argv| && Names(argv[i], name) {
        var i :| 0 <= i < |argv| && Names(argv[i], name);
        if i < n {
          assert Names(init[i], name);
        }
      }
    }
  }

  /** `--commercial` and `--license-key` select the "src" licence. */
  predicate SelectsSrc(arg: string) {
    Names(arg, "commercial") || Names(arg, "license-key")
  }

  /** One argument sets the licence type only through the three licence flags. */
  lemma ApplyArgLicenseType(o: Options, arg: string)
    ensures ApplyArg(o, arg).licenseType ==
      if Names(arg, "demo") then Demo else if SelectsSrc(arg) then Src else o.licenseType
  {
  }

  /** Some `--commercial` or `--license-key` is not followed by a `--demo`. */
  predicate SrcSelectedLast(argv: seq<string>) {
    exists i :: 0 <= i < |argv| && SelectsSrc(argv[i]) &&
      forall j :: i < j < |argv| ==> !Names(argv[j], "demo")
  }

  /** SrcSelectedLast looked at from the last argument backwards. */
  lemma SrcSelectedLastStep(argv: seq<string>)
    requires argv != []
    ensures var n := |argv| - 1;
      SrcSelectedLast(argv) ==
        if Names(argv[n], "demo") then false
        else if SelectsSrc(argv[n]) then true
        else SrcSelectedLast(argv[..n])
  {
    var n := |argv| - 1;
    var init, last := argv[..n], argv[n];
    if Names(last, "demo") {
      forall i | 0 <= i < |argv| && SelectsSrc(argv[i])
        ensures exists j :: i < j < |argv| && Names(argv[j], "demo")
      {
        assert i != n;
        assert i < n && Names(argv[n], "demo");
      }
    } else if SelectsSrc(last) {
      assert SelectsSrc(argv[n]);
    } else {
      SrcSelectedLastInit(argv);
    }
  }

  /** When the last argument is no licence flag, it does not matter. */
  lemma SrcSelectedLastInit(argv: seq<string>)
    requires argv != []
    requires !Names(argv[|argv| - 1], "demo") && !SelectsSrc(argv[|argv| - 1])
    ensures SrcSelectedLast(argv) == SrcSelectedLast(argv[..|argv| - 1])
  {
    var n := |argv| - 1;
    var init := argv[..n];
    if SrcSelectedLast(init) {
      var i :| 0 <= i < n && SelectsSrc(init[i]) && forall j :: i < j < n ==> !Names(init[j], "demo");
      assert init[i] == argv[i];
      forall j | i < j < |argv| ensures !Names(argv[j], "demo") {
        if j < n { assert init[j] == argv[j]; }
      }
    }
    if SrcSelectedLast(argv) {
      var i :| 0 <= i < |argv| && SelectsSrc(argv[i]) && forall j :: i < j < |argv| ==> !Names(argv[j], "demo");
      assert i < n;
      assert init[i] == argv[i];
      forall j | i < j < n ensures !Names(init[j], "demo") {
        assert init[j] == argv[j];
      }
    }
  }

  /** The licence is "src" exactly when some `--commercial` or
      `--license-key` is not followed by a `--demo`. */
  lemma {:induction false} LicenseTypeFollowsLastLicenceFlag(argv: seq<string>)
    ensures ParseArgs(argv).licenseType == Src <==> SrcSelectedLast(argv)
    decreases |argv|
  {
    if argv != [] {
      var n := |argv| - 1;
      LicenseTypeFollowsLastLicenceFlag(argv[..n]);
      ApplyArgLicenseType(ParseArgs(argv[..n]), argv[n]);
      SrcSelectedLastStep(argv);
    }
  }

  /** `--license-key=K` is read as the flag "license-key" with value K. */
  lemma LicenseKeyArg(key: string)
    requires Separator !in key
    ensures Names("--license-key=" + key, "license-key")
    ensures FlagValue("--license-key=" + key) == Str(key)
  {
    var prefix := "--" + "license-key" + [Separator];
    assert forall k :: 0 <= k < |prefix| ==> prefix[k] == "--license-key="[k];
    assert "--license-key=" + key == "--" + "license-key" + [Separator] + key + "";
    FlagWithValue("license-key", key, "");
  }

  /** `--demo` is read as the flag "demo". */
  lemma DemoArg()
    ensures Names("--demo", "demo")
  {
    var demo := "--" + "demo";
    assert forall k :: 0 <= k < |demo| ==> demo[k] == "--demo"[k];
    BareFlag("demo");
  }

  /** `--license-key=K` then `--demo`: the licence is back to "demo" while
      the key K stays recorded. */
  lemma DemoAfterKeyKeepsKey(argv: seq<string>, key: string)
    requires Separator !in key
    ensures var o := ParseArgs(argv + ["--license-key=" + key, "--demo"]);
      o.licenseType == Demo && o.licenseKey == Str(key)
  {
    var keyArg := "--license-key=" + key;
    LicenseKeyArg(key);
    DemoArg();
    var withKey := argv + [keyArg];
    var full := argv + [keyArg, "--demo"];
    assert full[..|full| - 1] == withKey && full[|full| - 1] == "--demo";
    assert withKey[..|withKey| - 1] == argv && withKey[|withKey| - 1] == keyArg;
    var o1 := ApplyArg(ParseArgs(argv), keyArg);
    assert ParseArgs(withKey) == o1;
    assert o1.licenseKey == Str(key);
    assert ParseArgs(full) == ApplyArg(o1, "--demo");
  }
}
