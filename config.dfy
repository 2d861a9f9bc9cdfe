/** Configuration resolution in `service_main` (src/main.rs:84-89,
    :114-178): the option string and the poll interval start from built-in
    defaults, are overwritten by the values `ffl_options` and `ffl_interval`
    of the key `FirefoxHTML-<id>\shell\open\command`, and then by the service
    arguments of the same names, which are consulted only when more than one
    argument was passed. */
module Config {
  import opened Wrappers
  import opened Registry

  const DefaultOptions := "-private-window \"%1\""
  const DefaultInterval: u32 := 60
  const OptionsName := "ffl_options"
  const IntervalName := "ffl_interval"

  /** The resolved option string and poll interval (seconds). */
  datatype Settings = Settings(options: string, interval: u32)

  /** The key holding the user's overrides (src/main.rs:123). */
  function SettingsPath(installId: string): string {
    LaunchPath("HTML", installId)
  }

  /** `handle.get_value("ffl_options")` as `String`, when the key opens and
      the value exists with a string type. */
  function RegistryOptions(store: Store, installId: string): (r: Option<string>)
    ensures r.Some? <==> SettingsPath(installId) in store && OptionsName in store[SettingsPath(installId)]
                         && store[SettingsPath(installId)][OptionsName].Sz?
  {
    var path := SettingsPath(installId);
    if path in store && OptionsName in store[path] then
      match store[path][OptionsName]
      case Sz(text) => Some(text)
      case _ => None
    else None
  }

  /** `handle.get_value("ffl_interval")` as `u32`, when the key opens and the
      value exists as a REG_DWORD. */
  function RegistryInterval(store: Store, installId: string): (r: Option<u32>)
    ensures r.Some? <==> SettingsPath(installId) in store && IntervalName in store[SettingsPath(installId)]
                         && store[SettingsPath(installId)][IntervalName].Dword?
  {
    var path := SettingsPath(installId);
    if path in store && IntervalName in store[path] then
      match store[path][IntervalName]
      case Dword(n) => Some(n)
      case _ => None
    else None
  }

  predicate IsDigit(c: char) {
    '0' <= c <= '9'
  }

  predicate AllDigits(s: string) {
    forall k :: 0 <= k < |s| ==> IsDigit(s[k])
  }

  /** The value of a string of decimal digits. */
  function DigitsValue(s: string): nat
    requires AllDigits(s)
  {
    if s == [] then 0 else DigitsValue(s[..|s| - 1]) * 10 + (s[|s| - 1] - '0') as nat
  }

  /** Rust's `str::parse::<u32>`: one optional leading '+', then at least one
      decimal digit and nothing else, with a value below 2^32. */
  function ParseU32(s: string): (r: Option<u32>)
    ensures r.Some? ==> 0 < |s| && (IsDigit(s[0]) || s[0] == '+')
  {
    var digits := if 0 < |s| && s[0] == '+' then s[1..] else s;
    if |digits| == 0 || !AllDigits(digits) then None
    else if DigitsValue(digits) < 0x1_0000_0000 then Some(DigitsValue(digits) as u32)
    else None
  }

  /** The shortest decimal spelling of `n`. */
  function Decimal(n: nat): (r: string)
    ensures |r| > 0 && AllDigits(r)
  {
    if n < 10 then ['0' + n as char]
    else Decimal(n / 10) + ['0' + (n % 10) as char]
  }

  lemma {:induction false} DecimalValue(n: nat)
    ensures DigitsValue(Decimal(n)) == n
  {
    if n >= 10 {
      var d := Decimal(n);
      assert d[..|d| - 1] == Decimal(n / 10);
      DecimalValue(n / 10);
    }
  }

  /** Every interval written in decimal parses back, with or without '+'. */
  lemma ParseDecimal(n: u32)
    ensures ParseU32(Decimal(n as nat)) == Some(n)
    ensures ParseU32("+" + Decimal(n as nat)) == Some(n)
  {
    DecimalValue(n as nat);
    assert ("+" + Decimal(n as nat))[1..] == Decimal(n as nat);
  }

  /** `z` zero digits. */
  function Zeros(z: nat): (r: string)
    ensures |r| == z && AllDigits(r)
  {
    if z == 0 then [] else Zeros(z - 1) + ['0']
  }

  lemma {:induction false} ZerosAreZeros(z: nat)
    ensures forall k :: 0 <= k < z ==> Zeros(z)[k] == '0'
  {
    if z > 0 {
      ZerosAreZeros(z - 1);
      assert forall k :: 0 <= k < z - 1 ==> Zeros(z)[k] == Zeros(z - 1)[k];
    }
  }

  /** Leading zeros do not change the value of a digit string. */
  lemma {:induction false} ZerosPrefixValue(z: nat, d: string)
    requires AllDigits(d)
    ensures AllDigits(Zeros(z) + d)
    ensures DigitsValue(Zeros(z) + d) == DigitsValue(d)
  {
    var s := Zeros(z) + d;
    if d == [] {
      assert s == Zeros(z);
      ZerosValue(z);
    } else {
      assert s[..|s| - 1] == Zeros(z) + d[..|d| - 1];
      ZerosPrefixValue(z, d[..|d| - 1]);
    }
  }

  lemma {:induction false} ZerosValue(z: nat)
    ensures DigitsValue(Zeros(z)) == 0
  {
    if z > 0 {
      assert Zeros(z)[..z - 1] == Zeros(z - 1);
      ZerosValue(z - 1);
    }
  }

  /** A digit string that does not start with '0' has a positive value. */
  lemma {:induction false} LeadingDigitPositive(d: string)
    requires |d| > 0 && AllDigits(d) && d[0] != '0'
    ensures DigitsValue(d) >= 1
  {
    if |d| > 1 {
      LeadingDigitPositive(d[..|d| - 1]);
    }
  }

  /** A digit string without superfluous leading zeros is the shortest
      decimal spelling of its value. */
  lemma {:induction false} DecimalOfCanonical(d: string)
    requires |d| > 0 && AllDigits(d) && (d[0] != '0' || |d| == 1)
    ensures Decimal(DigitsValue(d)) == d
  {
    var init, c := d[..|d| - 1], d[|d| - 1];
    if |d| > 1 {
      LeadingDigitPositive(init);
      DecimalOfCanonical(init);
      var v := DigitsValue(d);
      assert v / 10 == DigitsValue(init) && v % 10 == (c - '0') as nat;
      assert d == init + [c];
    }
  }

  /** The number of leading zeros of a non-empty digit string, keeping at
      least its last digit. */
  function LeadingZeros(d: string): (z: nat)
    requires |d| > 0
    ensures z < |d| && (d[z] != '0' || z == |d| - 1)
    ensures forall k :: 0 <= k < z ==> d[k] == '0'
  {
    if |d| > 1 && d[0] == '0' then 1 + LeadingZeros(d[1..]) else 0
  }

  /** A non-empty digit string whose value fits parses to that value, with
      or without '+'. */
  lemma {:induction false} ParseDigits(d: string)
    requires |d| > 0 && AllDigits(d) && DigitsValue(d) < 0x1_0000_0000
    ensures ParseU32(d) == Some(DigitsValue(d) as u32)
    ensures ParseU32("+" + d) == Some(DigitsValue(d) as u32)
  {
    assert d[0] != '+';
    assert ("+" + d)[1..] == d;
  }

  /** Zeros in front of a digit string are accepted, with or without '+'. */
  lemma {:induction false} ParseZerosThen(z: nat, e: string, n: u32)
    requires |e| > 0 && AllDigits(e) && DigitsValue(e) == n as nat
    ensures ParseU32(Zeros(z) + e) == Some(n)
    ensures ParseU32("+" + Zeros(z) + e) == Some(n)
  {
    var d := Zeros(z) + e;
    ZerosPrefixValue(z, e);
    ParseDigits(d);
    assert "+" + Zeros(z) + e == "+" + d;
  }

  /** Leading zeros are accepted, with or without '+'. */
  lemma {:induction false} ParseLeadingZeros(z: nat, n: u32)
    ensures ParseU32(Zeros(z) + Decimal(n as nat)) == Some(n)
    ensures ParseU32("+" + Zeros(z) + Decimal(n as nat)) == Some(n)
  {
    DecimalValue(n as nat);
    ParseZerosThen(z, Decimal(n as nat), n);
  }

  /** Every non-empty digit string is a run of zeros followed by the decimal
      spelling of its value. */
  lemma {:induction false} DigitsShape(d: string) returns (z: nat)
    requires |d| > 0 && AllDigits(d)
    ensures d == Zeros(z) + Decimal(DigitsValue(d))
  {
    z := LeadingZeros(d);
    var rest := d[z..];
    ZerosAreZeros(z);
    assert d[..z] == Zeros(z);
    assert d == Zeros(z) + rest;
    ZerosPrefixValue(z, rest);
    DecimalOfCanonical(rest);
  }

  /** A text that parses to `n` is an optional '+', a run of zeros and the
      decimal spelling of `n`. */
  lemma {:induction false} ParsedShape(s: string, n: u32) returns (z: nat)
    requires ParseU32(s) == Some(n)
    ensures s == Zeros(z) + Decimal(n as nat) || s == "+" + Zeros(z) + Decimal(n as nat)
  {
    if s[0] == '+' {
      var digits := s[1..];
      assert s == "+" + digits;
      z := DigitsShape(digits);
    } else {
      z := DigitsShape(s);
    }
  }

  /** `str::parse::<u32>` yields `n` exactly when the text is an optional
      '+', a run of zeros and the decimal spelling of `n`: nothing else is
      accepted, and no value is wrapped or truncated to fit. */
  lemma {:induction false} ParseU32Exact(s: string, n: u32)
    ensures ParseU32(s) == Some(n) <==>
            exists z: nat :: s == Zeros(z) + Decimal(n as nat) || s == "+" + Zeros(z) + Decimal(n as nat)
  {
    if ParseU32(s) == Some(n) {
      var z := ParsedShape(s, n);
    }
    if exists z: nat :: s == Zeros(z) + Decimal(n as nat) || s == "+" + Zeros(z) + Decimal(n as nat) {
      var z: nat :| s == Zeros(z) + Decimal(n as nat) || s == "+" + Zeros(z) + Decimal(n as nat);
      ParseLeadingZeros(z, n);
    }
  }

  /** A value of 2^32 or more overflows `u32`: the parse fails rather than
      wrapping, with or without '+'. */
  lemma {:induction false} ParseRejectsOverflow(n: nat)
    requires n >= 0x1_0000_0000
    ensures ParseU32(Decimal(n)) == None
    ensures ParseU32("+" + Decimal(n)) == None
  {
    DecimalValue(n);
    assert ("+" + Decimal(n))[1..] == Decimal(n);
  }

  /** Any character other than a digit, save a leading '+', makes the parse
      fail: "10s" is not an interval. */
  lemma {:induction false} ParseRejectsNonDigit(s: string, k: int)
    requires 0 <= k < |s| && !IsDigit(s[k]) && !(k == 0 && s[0] == '+')
    ensures ParseU32(s) == None
  {
    if s[0] == '+' {
      assert !IsDigit(s[1..][k - 1]);
    }
  }

  /** A negative number is not a `u32`: the parse fails and the earlier
      interval stands. */
  lemma ParseRejectsSign(s: string)
    ensures ParseU32("-" + s) == None
  {
    assert !IsDigit(("-" + s)[0]);
  }

  /** Arguments are consulted only when more than one was passed
      (src/main.rs:154). */
  predicate ArgumentsConsulted(argCount: nat) {
    argCount > 0 && argCount > 1
  }

  /** `vec[0]` on an argument that has no value panics (src/main.rs:168, :175). */
  predicate ArgumentPanics(argCount: nat, argv: map<string, seq<string>>, name: string) {
    ArgumentsConsulted(argCount) && name in argv && argv[name] == []
  }

  /** The first value given for argument `name`, when arguments are consulted. */
  function FirstArgument(argCount: nat, argv: map<string, seq<string>>, name: string): (r: Option<string>)
    ensures r.Some? <==> ArgumentsConsulted(argCount) && name in argv && argv[name] != []
  {
    if ArgumentsConsulted(argCount) && name in argv && argv[name] != [] then Some(argv[name][0]) else None
  }

  /** The interval argument, when present and parseable as `u32`. */
  function ArgumentInterval(argCount: nat, argv: map<string, seq<string>>): Option<u32> {
    match FirstArgument(argCount, argv, IntervalName)
    case Some(text) => ParseU32(text)
    case None => None
  }

  /** The resolved configuration: per field, the argument if usable, else
      the registry value if present, else the default; or the name of the
      argument whose `vec[0]` panics. */
  function Resolved(store: Store, installId: string, argCount: nat, argv: map<string, seq<string>>): Result<Settings, string> {
    if ArgumentPanics(argCount, argv, IntervalName) then Err(IntervalName)
    else if ArgumentPanics(argCount, argv, OptionsName) then Err(OptionsName)
    else
      Ok(Settings(
        FirstArgument(argCount, argv, OptionsName).GetOr(RegistryOptions(store, installId).GetOr(DefaultOptions)),
        ArgumentInterval(argCount, argv).GetOr(RegistryInterval(store, installId).GetOr(DefaultInterval))))
  }

  /** The step-by-step overwriting of `data.options` and `data.interval` in
      `service_main` (src/main.rs:84-89, :123-177). */
  method ResolveConfig(store: Store, installId: string, argCount: nat, argv: map<string, seq<string>>)
    returns (r: Result<Settings, string>)
    ensures r == Resolved(store, installId, argCount, argv)
  {
    var options := DefaultOptions;
    var interval := DefaultInterval;
    var path := SettingsPath(installId);
    if path in store {
      var values := store[path];
      if OptionsName in values && values[OptionsName].Sz? {
        options := values[OptionsName].text;
      }
      if IntervalName in values && values[IntervalName].Dword? {
        interval := values[IntervalName].number;
      }
    }
    if argCount > 0 && argCount > 1 {
      if IntervalName in argv {
        var given := argv[IntervalName];
        if |given| == 0 {
          return Err(IntervalName);
        }
        match ParseU32(given[0]) {
          case Some(n) => interval := n;
          case None =>
        }
      }
      if OptionsName in argv {
        var given := argv[OptionsName];
        if |given| == 0 {
          return Err(OptionsName);
        }
        options := given[0];
      }
    }
    return Ok(Settings(options, interval));
  }

  /** An argument beats the registry, which beats the default: with a
      registry interval of 30 and an argument of "10" the interval is 10;
      with no argument it is 30; with neither it is 60. */
  lemma IntervalPrecedence(store: Store, installId: string, argv: map<string, seq<string>>)
    requires SettingsPath(installId) in store
    requires store[SettingsPath(installId)] == map[IntervalName := Dword(30)]
    requires argv == map[IntervalName := ["10"]]
    ensures Resolved(store, installId, 2, argv) == Ok(Settings(DefaultOptions, 10))
    ensures Resolved(store, installId, 2, map[]) == Ok(Settings(DefaultOptions, 30))
    ensures Resolved(map[], installId, 2, map[]) == Ok(Settings(DefaultOptions, 60))
  {
    ParseDecimal(10);
    assert Decimal(10) == "10";
  }

  /** An interval argument that does not parse keeps the earlier value. */
  lemma UnparseableIntervalKeepsEarlier(store: Store, installId: string, argCount: nat, argv: map<string, seq<string>>)
    requires Resolved(store, installId, argCount, argv).Ok?
    requires ArgumentInterval(argCount, argv).None?
    ensures Resolved(store, installId, argCount, argv).value.interval
            == RegistryInterval(store, installId).GetOr(DefaultInterval)
  {
  }

  /** With at most one argument, the arguments change nothing and never panic. */
  lemma SingleArgumentIgnored(store: Store, installId: string, argCount: nat, argv: map<string, seq<string>>)
    requires argCount <= 1
    ensures Resolved(store, installId, argCount, argv) == Resolved(store, installId, argCount, map[])
  {
  }

  /** When the override key cannot be opened, the defaults stand unless an
      argument replaces them. */
  lemma MissingSettingsKeyKeepsDefaults(store: Store, installId: string, argCount: nat, argv: map<string, seq<string>>)
    requires SettingsPath(installId) !in store
    requires Resolved(store, installId, argCount, argv).Ok?
    ensures Resolved(store, installId, argCount, argv).value.options
            == FirstArgument(argCount, argv, OptionsName).GetOr(DefaultOptions)
    ensures Resolved(store, installId, argCount, argv).value.interval
            == ArgumentInterval(argCount, argv).GetOr(DefaultInterval)
  {
  }
}
