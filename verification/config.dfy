/** Config.h: `name=value` lines loaded once into a string map, and the typed
    getters over it. The file is its sequence of lines as `std::getline`
    delivers them; `None` is a file that failed to open. */
module Config {
  import opened Wrappers
  import StdMap
  import opened StdString

  /** Lines 30-32: split at the first '='. Without one, find returns npos, the
      name is substr(0, npos) and the value is substr(npos + 1), where npos + 1
      wraps to 0: both are the whole line. */
  function ParseLine(line: String): (r: (String, String))
    ensures '=' !in line ==> r.0 == line && r.1 == line
    ensures '=' in line ==> r.0 + "=" + r.1 == line && '=' !in r.0
  {
    var delimPos := Find(line, '=');
    var valuePos := (delimPos + 1) % SizeModulus;
    SplitPositions(line, delimPos, valuePos);
    (Substr(line, 0, delimPos), Substr(line, valuePos, Npos))
  }

  lemma SplitPositions(line: String, delimPos: int, valuePos: int)
    requires delimPos == Find(line, '=') && valuePos == (delimPos + 1) % SizeModulus
    ensures '=' !in line ==> delimPos == Npos && valuePos == 0
    ensures '=' in line ==> 0 <= delimPos < |line| && valuePos == delimPos + 1
    ensures '=' in line ==> line == line[..delimPos] + "=" + line[delimPos + 1..] && '=' !in line[..delimPos]
  {
  }

  /** One line of the loop: empty lines are skipped, others inserted without
      replacing an existing name. */
  function InsertLine(vars: map<String, String>, line: String): map<String, String> {
    if line == [] then vars
    else
      var (name, value) := ParseLine(line);
      StdMap.Insert(vars, name, value)
  }

  /** The read loop over all lines, front to back. */
  function InsertLines(vars: map<String, String>, lines: seq<String>): map<String, String>
    decreases |lines|
  {
    if lines == [] then vars else InsertLines(InsertLine(vars, lines[0]), lines[1..])
  }

  /** The value of the first non-empty line that names `n`, if any. */
  function FirstBinding(lines: seq<String>, n: String): Option<String>
    decreases |lines|
  {
    if lines == [] then None
    else if lines[0] != [] && ParseLine(lines[0]).0 == n then Some(ParseLine(lines[0]).1)
    else FirstBinding(lines[1..], n)
  }

  /** Loading binds a name iff it was bound or some line names it; an existing
      binding survives, otherwise the first line naming it wins. */
  lemma {:induction false} InsertLinesSpec(vars: map<String, String>, lines: seq<String>, n: String)
    ensures n in InsertLines(vars, lines) <==> n in vars || FirstBinding(lines, n).Some?
    ensures n in vars ==> InsertLines(vars, lines)[n] == vars[n]
    ensures n !in vars && FirstBinding(lines, n).Some? ==> InsertLines(vars, lines)[n] == FirstBinding(lines, n).value
    decreases |lines|
  {
    if lines != [] {
      InsertLinesSpec(InsertLine(vars, lines[0]), lines[1..], n);
    }
  }

  datatype Config = Config(vars: map<String, String>, isLoaded: bool)

  /** Program start: no variables, nothing loaded. */
  const Initial: Config := Config(map[], false)

  /** `loadConfigFile`: the flag is set before the file is opened, so a second
      call does nothing even when the first could not open its file. */
  function LoadConfigFile(c: Config, file: Option<seq<String>>): (r: Config)
    ensures r.isLoaded
    ensures c.isLoaded ==> r == c
    ensures !c.isLoaded && file.None? ==> r.vars == c.vars
    ensures !c.isLoaded && file.Some? ==> forall n :: n in r.vars <==> n in c.vars || FirstBinding(file.value, n).Some?
    ensures !c.isLoaded ==> forall n :: n in c.vars ==> n in r.vars && r.vars[n] == c.vars[n]
    ensures !c.isLoaded && file.Some? ==>
              forall n :: n in r.vars && n !in c.vars ==> FirstBinding(file.value, n).Some? && r.vars[n] == FirstBinding(file.value, n).value
  {
    if c.isLoaded then c
    else
      var c' := c.(isLoaded := true);
      match file
      case None => c'
      case Some(lines) =>
        forall n
          ensures n in InsertLines(c.vars, lines) <==> n in c.vars || FirstBinding(lines, n).Some?
          ensures n in c.vars ==> InsertLines(c.vars, lines)[n] == c.vars[n]
          ensures n !in c.vars && FirstBinding(lines, n).Some? ==> InsertLines(c.vars, lines)[n] == FirstBinding(lines, n).value
        {
          InsertLinesSpec(c.vars, lines, n);
        }
        c'.(vars := InsertLines(c.vars, lines))
  }

  /** Loading happens at most once. */
  lemma LoadAtMostOnce(c: Config, first: Option<seq<String>>, second: Option<seq<String>>)
    ensures LoadConfigFile(LoadConfigFile(c, first), second) == LoadConfigFile(c, first)
  {
  }

  /** `getVarAsBool`: `configVars[name]` (inserting "" when missing); true iff
      the value is exactly "true". */
  function GetVarAsBool(c: Config, name: String): (r: (Config, bool))
    ensures r.1 <==> name in c.vars && c.vars[name] == "true"
    ensures r.0 == c.(vars := StdMap.Insert(c.vars, name, ""))
  {
    var (vars, valueStr) := StdMap.Subscript(c.vars, name, "");
    (c.(vars := vars), if valueStr == [] then false else valueStr == "true")
  }

  predicate IsDigit(ch: char) { '0' <= ch <= '9' }

  /** The value of a run of decimal digits. */
  function Digits(s: seq<char>): nat
    requires forall i :: 0 <= i < |s| ==> IsDigit(s[i])
  {
    if s == [] then 0
    else
      assert IsDigit(s[|s| - 1]);
      Digits(s[..|s| - 1]) * 10 + (s[|s| - 1] as int - '0' as int)
  }

  /** The C `int` range `std::stoi` must fit. */
  predicate InIntRange(n: int) { -0x8000_0000 <= n < 0x8000_0000 }

  predicate AllDigits(s: seq<char>) {
    |s| > 0 && forall i :: 0 <= i < |s| ==> IsDigit(s[i])
  }

  /** The inputs on which this model defines `std::stoi`: an optional sign, one
      or more digits and nothing else, denoting a value in int range. */
  predicate IsStoiInput(s: seq<char>) {
    if |s| > 0 && (s[0] == '-' || s[0] == '+') then
      AllDigits(s[1..]) && InIntRange(if s[0] == '-' then -(Digits(s[1..]) as int) else Digits(s[1..]))
    else AllDigits(s) && InIntRange(Digits(s))
  }

  function Stoi(s: seq<char>): (n: int)
    requires IsStoiInput(s)
    ensures InIntRange(n)
  {
    if s[0] == '-' then -(Digits(s[1..]) as int) else if s[0] == '+' then Digits(s[1..]) else Digits(s)
  }

  /** `getVarAsInt`: -1 for a missing or empty value, else `std::stoi`. */
  function GetVarAsInt(c: Config, name: String): (r: (Config, int))
    requires name in c.vars && c.vars[name] != [] ==> IsStoiInput(c.vars[name])
    ensures name !in c.vars || c.vars[name] == [] ==> r.1 == -1
    ensures name in c.vars && c.vars[name] != [] ==> r.1 == Stoi(c.vars[name])
    ensures InIntRange(r.1)
    ensures r.0 == c.(vars := StdMap.Insert(c.vars, name, ""))
  {
    var (vars, valueStr) := StdMap.Subscript(c.vars, name, "");
    (c.(vars := vars), if valueStr == [] then -1 else Stoi(valueStr))
  }

  /** The decimal rendering of a natural number. */
  function FormatNat(n: nat): (s: seq<char>)
    ensures AllDigits(s)
  {
    if n < 10 then [('0' as int + n) as char]
    else FormatNat(n / 10) + [('0' as int + n % 10) as char]
  }

  lemma {:induction false} DigitsOfFormat(n: nat)
    ensures Digits(FormatNat(n)) == n
  {
    if n >= 10 {
      DigitsOfFormat(n / 10);
      var s := FormatNat(n);
      assert s[..|s| - 1] == FormatNat(n / 10);
    }
  }

  function Pow10(k: nat): nat {
    if k == 0 then 1 else 10 * Pow10(k - 1)
  }

  /** A number below 10^k has at most k digits. */
  lemma {:induction false} FormatNatLength(n: nat, k: nat)
    requires 1 <= k && n < Pow10(k)
    ensures |FormatNat(n)| <= k
  {
    if n >= 10 {
      assert k >= 2;
      FormatNatLength(n / 10, k - 1);
    }
  }

  /** The decimal rendering of an int, with a '-' for negatives; an int takes
      at most eleven characters. */
  function FormatInt(n: int): (s: seq<char>)
    ensures InIntRange(n) ==> |s| <= 11
  {
    var s := if n < 0 then "-" + FormatNat(-n) else FormatNat(n);
    assert InIntRange(n) ==> |s| <= 11 by {
      if InIntRange(n) {
        Pow10Ten();
        FormatNatLength(if n < 0 then -n else n, 10);
      }
    }
    s
  }

  lemma Pow10Ten()
    ensures Pow10(10) == 10_000_000_000
  {
    assert Pow10(4) == 10_000;
    assert Pow10(8) == 100_000_000;
  }

  /** `std::stoi` reads back every int it is given in decimal. */
  lemma StoiOfFormat(n: int)
    requires InIntRange(n)
    ensures IsStoiInput(FormatInt(n)) && Stoi(FormatInt(n)) == n
  {
    if n < 0 {
      DigitsOfFormat(-n);
      assert FormatInt(n)[1..] == FormatNat(-n);
    } else {
      DigitsOfFormat(n);
    }
  }

  /** A line `name=value` whose name has no '=' parses back into its parts. */
  lemma ParseBinding(name: String, value: String)
    requires '=' !in name && |name| + 1 + |value| < Npos
    ensures ParseLine(name + "=" + value) == (name, value)
  {
    var line: String := name + "=" + value;
    assert line[|name|] == '=';
    var (nm, v) := ParseLine(line);
    UniqueSplit(nm, v, name, value);
  }

  /** A string splits at its first '=' in only one way. */
  lemma UniqueSplit(a: String, b: String, a': String, b': String)
    requires '=' !in a && '=' !in a' && |a| + 1 + |b| < Npos
    requires a + "=" + b == a' + "=" + b'
    ensures a == a' && b == b'
  {
    var s := a + "=" + b;
    FirstDelimiter(a, b);
    FirstDelimiter(a', b');
    assert a == s[..|a|] && a' == s[..|a'|];
    assert b == s[|a| + 1..] && b' == s[|a'| + 1..];
  }

  /** The first '=' of `a + "=" + b` is the one after `a` when `a` has none. */
  lemma {:induction false} FirstDelimiter(a: String, b: String)
    requires '=' !in a && |a| + 1 + |b| < Npos
    ensures FirstIndexOf(a + "=" + b, '=') == Some(|a|)
  {
    if a != [] {
      FirstDelimiter(a[1..], b);
      assert (a + "=" + b)[1..] == a[1..] + "=" + b;
    }
  }

  /** Loading a single line `name=value` into an empty map binds exactly it. */
  lemma LoadSingleBinding(name: String, value: String)
    requires '=' !in name && |name| + 1 + |value| < Npos
    ensures var c := LoadConfigFile(Initial, Some([name + "=" + value]));
            name in c.vars && c.vars[name] == value
  {
    ParseBinding(name, value);
    InsertLinesSpec(map[], [name + "=" + value], name);
  }

  /** A freshly loaded file with the line `name=<n>` makes getVarAsInt return n. */
  lemma IntRoundTripThroughFile(name: String, n: int)
    requires '=' !in name && |name| < 1000 && InIntRange(n)
    ensures var c := LoadConfigFile(Initial, Some([name + "=" + FormatInt(n)]));
            name in c.vars && c.vars[name] == FormatInt(n) && IsStoiInput(FormatInt(n)) && GetVarAsInt(c, name).1 == n
  {
    LoadSingleBinding(name, FormatInt(n));
    StoiOfFormat(n);
  }

  /** With the line `name=true`, a fresh load makes getVarAsBool read true. */
  lemma LoadedTrueReadsTrue(name: String)
    requires '=' !in name && |name| < 1000
    ensures GetVarAsBool(LoadConfigFile(Initial, Some([name + "=" + "true"])), name).1
  {
    LoadSingleBinding(name, "true");
    ReadsTrue(LoadConfigFile(Initial, Some([name + "=" + "true"])), name);
  }

  lemma ReadsTrue(c: Config, name: String)
    requires name in c.vars && c.vars[name] == "true"
    ensures GetVarAsBool(c, name).1
  {
  }

  /** Asking for a name before the file is loaded inserts "" for it, and since
      loading never overwrites, the file's value stays hidden: a load after the
      lookup reads false from the same line `name=true`. */
  lemma LookupBeforeLoadMasks(name: String)
    requires '=' !in name && |name| < 1000
    ensures !GetVarAsBool(LoadConfigFile(GetVarAsBool(Initial, name).0, Some([name + "=true"])), name).1
  {
    var before := GetVarAsBool(Initial, name).0;
    assert before.vars == map[name := ""] && !before.isLoaded;
    var line: String := name + "=true";
    InsertLinesSpec(before.vars, [line], name);
    var after := LoadConfigFile(before, Some([line]));
    assert after.vars[name] == "";
  }
}
