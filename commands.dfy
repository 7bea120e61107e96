/**
 * The command language of transform.mjs. `parseTransformCommands` finds every
 * `name(arguments)` group with the global expression `(\w+)\(([^\)]*)\)` and, inside
 * each group, every number with `(\-?\d+\.?\d*)(\s*,|\s*$)`, read with `parseFloat`.
 *
 * `matchAll` with a global expression tries the expression at every position from left
 * to right and, after a match, resumes where the match ended. `MatchAll` below is that
 * scan, for any matcher; `MatchNumber` and `MatchCommand` say what each of the two
 * expressions matches when tried at one position (neither can match differently after
 * backtracking, because every shorter choice leaves a character the next part refuses).
 */
module Commands {

  /** One parsed command: its name and its numeric inputs, in order. */
  datatype Command = Command(name: string, inputs: seq<real>)

  /**
   * One attempt of a two-group expression at position i: a miss, or a match whose first
   * group is s[i..group1End], whose second group is s[group2Start..group2End] and which
   * ends at matchEnd.
   */
  datatype Attempt = Miss | Hit(group1End: nat, group2Start: nat, group2End: nat, matchEnd: nat)

  /** The two groups a match captures. */
  datatype Found = Found(group1: string, group2: string)

  /** A hit at i whose groups and end lie in order inside s; a match is never empty. */
  predicate Fits(a: Attempt, s: string, i: nat) {
    a.Hit? && i < a.group1End <= a.group2Start <= a.group2End <= a.matchEnd <= |s|
  }

  /**
   * `s.matchAll(expression)` from position i on, for the expression `matcher` tries:
   * every match in textual order, each found where the previous one ended or later.
   */
  function MatchAll(s: string, i: nat, matcher: (string, nat) -> Attempt): seq<Found>
    requires i <= |s|
    decreases |s| - i
  {
    if i == |s| then []
    else
      var a := matcher(s, i);
      if Fits(a, s, i) then [Found(s[i..a.group1End], s[a.group2Start..a.group2End])] + MatchAll(s, a.matchEnd, matcher)
      else MatchAll(s, i + 1, matcher)
  }

  /** One step of a left-to-right scan: the matches found so far extend by what position `at` yields. */
  lemma ScanStep(s: string, at: nat, found: seq<Found>, matcher: (string, nat) -> Attempt)
    requires at < |s| && found + MatchAll(s, at, matcher) == MatchAll(s, 0, matcher)
    ensures var a := matcher(s, at);
      if Fits(a, s, at)
      then (found + [Found(s[at..a.group1End], s[a.group2Start..a.group2End])]) + MatchAll(s, a.matchEnd, matcher) == MatchAll(s, 0, matcher)
      else found + MatchAll(s, at + 1, matcher) == MatchAll(s, 0, matcher)
  {
  }

  // ------------------------------------------------------------------------- characters

  /** `\w`. */
  predicate IsWordChar(c: char) {
    'a' <= c <= 'z' || 'A' <= c <= 'Z' || '0' <= c <= '9' || c == '_'
  }

  /** `\d`. */
  predicate IsDigit(c: char) {
    '0' <= c <= '9'
  }

  /** `\s`: the JavaScript white space and line terminator characters. */
  predicate IsSpace(c: char) {
    c == ' ' || ('\t' <= c <= '\r') || c == '\U{00A0}' || c == '\U{1680}' ||
    ('\U{2000}' <= c <= '\U{200A}') || ('\U{2028}' <= c <= '\U{2029}') || c == '\U{202F}' ||
    c == '\U{205F}' || c == '\U{3000}' || c == '\U{FEFF}'
  }

  /** The character classes the two expressions repeat: `\w`, `\d`, `\s` and `[^\)]`. */
  datatype CharClass = Word | Digit | Space | NotClose

  predicate InClass(c: char, k: CharClass) {
    match k
    case Word => IsWordChar(c)
    case Digit => IsDigit(c)
    case Space => IsSpace(c)
    case NotClose => c != ')'
  }

  /** Where the longest run of class-k characters starting at i ends: a greedy repetition. */
  function RunEnd(s: string, i: nat, k: CharClass): (n: nat)
    requires i <= |s|
    ensures i <= n <= |s|
    decreases |s| - i
  {
    if i < |s| && InClass(s[i], k) then RunEnd(s, i + 1, k) else i
  }

  /** The run of class-k characters starting at i ends at the first character outside the class. */
  lemma {:induction false} RunEndClass(s: string, i: nat, k: CharClass)
    requires i <= |s|
    ensures forall m :: i <= m < RunEnd(s, i, k) ==> InClass(s[m], k)
    ensures RunEnd(s, i, k) == |s| || !InClass(s[RunEnd(s, i, k)], k)
    decreases |s| - i
  {
    if i < |s| && InClass(s[i], k) {
      RunEndClass(s, i + 1, k);
    }
  }

  /** A run ends exactly where the class stops. */
  lemma {:induction false} RunEndAt(s: string, i: nat, j: nat, k: CharClass)
    requires i <= j <= |s|
    requires forall m :: i <= m < j ==> InClass(s[m], k)
    requires j == |s| || !InClass(s[j], k)
    ensures RunEnd(s, i, k) == j
    decreases j - i
  {
    if i < j {
      RunEndAt(s, i + 1, j, k);
    }
  }

  // ------------------------------------------------------------------------- numbers

  function DigitValue(c: char): nat {
    if IsDigit(c) then c as nat - '0' as nat else 0
  }

  /** The value of the decimal digits s[lo..hi], most significant first. */
  function DigitsValue(s: string, lo: nat, hi: nat): nat
    requires lo <= hi <= |s|
    decreases hi - lo
  {
    if hi == lo then 0 else DigitsValue(s, lo, hi - 1) * 10 + DigitValue(s[hi - 1])
  }

  /** The value of the digits s[lo..hi] written after a decimal point. */
  function FractionValue(s: string, lo: nat, hi: nat): real
    requires lo <= hi <= |s|
    decreases hi - lo
  {
    if hi == lo then 0.0 else (DigitValue(s[lo]) as real + FractionValue(s, lo + 1, hi)) / 10.0
  }

  /** Past the optional minus sign at position i. */
  function SignEnd(s: string, i: nat): (n: nat)
    requires i <= |s|
    ensures i <= n <= |s|
  {
    if i < |s| && s[i] == '-' then i + 1 else i
  }

  /**
   * `parseFloat` of a captured numeral `-?\d+\.?\d*`, over exact reals: the sign, the
   * whole digits and the digits after the point.
   */
  function ParseFloat(t: string): real {
    var digitsStart := SignEnd(t, 0);
    var wholeEnd := RunEnd(t, digitsStart, Digit);
    var fraction := if wholeEnd < |t| && t[wholeEnd] == '.'
                    then FractionValue(t, wholeEnd + 1, RunEnd(t, wholeEnd + 1, Digit)) else 0.0;
    var magnitude := DigitsValue(t, digitsStart, wholeEnd) as real + fraction;
    if digitsStart == 1 then -magnitude else magnitude
  }

  /**
   * Where the numeral `-?\d+\.?\d*` that starts at position i ends; i itself when no
   * digit follows the optional sign.
   */
  function NumeralEnd(s: string, i: nat): (n: nat)
    requires i <= |s|
    ensures i <= n <= |s|
  {
    var digitsStart := SignEnd(s, i);
    var wholeEnd := RunEnd(s, digitsStart, Digit);
    if wholeEnd == digitsStart then i
    else if wholeEnd < |s| && s[wholeEnd] == '.' then RunEnd(s, wholeEnd + 1, Digit)
    else wholeEnd
  }

  /**
   * `(\-?\d+\.?\d*)(\s*,|\s*$)` tried at position i: the numeral, then white space and a
   * comma, or white space up to the end of the text.
   */
  function MatchNumber(s: string, i: nat): (a: Attempt)
    ensures a.Hit? ==> Fits(a, s, i)
  {
    if |s| <= i then Miss
    else
      var numberEnd := NumeralEnd(s, i);
      if numberEnd == i then Miss
      else
        var spacesEnd := RunEnd(s, numberEnd, Space);
        if spacesEnd < |s| && s[spacesEnd] == ',' then Hit(numberEnd, numberEnd, spacesEnd + 1, spacesEnd + 1)
        else if spacesEnd == |s| then Hit(numberEnd, numberEnd, |s|, |s|)
        else Miss
  }

  /** The numerals a command's argument text holds, in order. */
  function Numerals(args: string): seq<string> {
    var found := MatchAll(args, 0, MatchNumber);
    seq(|found|, k requires 0 <= k < |found| => found[k].group1)
  }

  /** The captured numerals read with `parseFloat`, one input each. */
  function Values(numerals: seq<string>): seq<real> {
    seq(|numerals|, k requires 0 <= k < |numerals| => ParseFloat(numerals[k]))
  }

  /** The inputs of one command. */
  function Inputs(args: string): seq<real> {
    Values(Numerals(args))
  }

  // ------------------------------------------------------------------------- commands

  /**
   * `(\w+)\(([^\)]*)\)` tried at position i: a name, an opening parenthesis, and the text
   * up to the first closing parenthesis.
   */
  function MatchCommand(s: string, i: nat): (a: Attempt)
    ensures a.Hit? ==> Fits(a, s, i)
  {
    if |s| <= i then Miss
    else
      var nameEnd := RunEnd(s, i, Word);
      if nameEnd == i || nameEnd == |s| || s[nameEnd] != '(' then Miss
      else
        var close := RunEnd(s, nameEnd + 1, NotClose);
        if close == |s| then Miss else Hit(nameEnd, nameEnd + 1, close, close + 1)
  }

  /** Each command match read as a command: its name and the inputs of its arguments. */
  function Interpret(groups: seq<Found>): seq<Command> {
    seq(|groups|, k requires 0 <= k < |groups| => Command(groups[k].group1, Inputs(groups[k].group2)))
  }

  /** What `parseTransformCommands` returns for a command string. */
  function ParseCommands(s: string): seq<Command> {
    Interpret(MatchAll(s, 0, MatchCommand))
  }

  /**
   * The inner loop of `parseTransformCommands`: every number match of the argument
   * text, read and pushed in order.
   */
  method ParseInputs(args: string) returns (inputs: seq<real>)
    ensures inputs == Inputs(args)
  {
    inputs := [];
    ghost var found: seq<Found> := [];
    var at := 0;
    while at < |args|
      invariant at <= |args|
      invariant found + MatchAll(args, at, MatchNumber) == MatchAll(args, 0, MatchNumber)
      invariant inputs == seq(|found|, k requires 0 <= k < |found| => ParseFloat(found[k].group1))
    {
      var inputMatch := MatchNumber(args, at);
      ScanStep(args, at, found, MatchNumber);
      if inputMatch.Hit? {
        var numeral := args[at..inputMatch.group1End];
        found := found + [Found(numeral, args[inputMatch.group2Start..inputMatch.group2End])];
        inputs := inputs + [ParseFloat(numeral)];
        at := inputMatch.matchEnd;
      } else {
        at := at + 1;
      }
    }
    InputsOfMatches(args, found);
  }

  /** Once the scan has reached the end, the values pushed are the inputs of the argument text. */
  lemma InputsOfMatches(args: string, found: seq<Found>)
    requires found + MatchAll(args, |args|, MatchNumber) == MatchAll(args, 0, MatchNumber)
    ensures Inputs(args) == seq(|found|, k requires 0 <= k < |found| => ParseFloat(found[k].group1))
  {
    assert found == MatchAll(args, 0, MatchNumber);
  }

  /** `parseTransformCommands(commands)`: one command per `name(arguments)` group, in order. */
  method ParseTransformCommands(commands: string) returns (commandList: seq<Command>)
    ensures commandList == ParseCommands(commands)
  {
    commandList := [];
    ghost var found: seq<Found> := [];
    var at := 0;
    while at < |commands|
      invariant at <= |commands|
      invariant found + MatchAll(commands, at, MatchCommand) == MatchAll(commands, 0, MatchCommand)
      invariant commandList == Interpret(found)
    {
      var commandMatch := MatchCommand(commands, at);
      ScanStep(commands, at, found, MatchCommand);
      if commandMatch.Hit? {
        var name := commands[at..commandMatch.group1End];
        var arguments := commands[commandMatch.group2Start..commandMatch.group2End];
        var inputs := ParseInputs(arguments);
        found := found + [Found(name, arguments)];
        commandList := commandList + [Command(name, inputs)];
        at := commandMatch.matchEnd;
      } else {
        at := at + 1;
      }
    }
  }

  // ------------------------------------------------------------------------- printing

  function DigitChar(d: nat): (c: char)
    requires d < 10
    ensures IsDigit(c) && DigitValue(c) == d
  {
    ('0' as nat + d) as char
  }

  /** The decimal digits of n, most significant first, without leading zeros. */
  function Digits(n: nat): (ds: string)
    ensures 0 < |ds| && forall i :: 0 <= i < |ds| ==> IsDigit(ds[i])
  {
    if n < 10 then [DigitChar(n)] else Digits(n / 10) + [DigitChar(n % 10)]
  }

  /** An integer written as the number expression expects it: an optional minus sign and digits. */
  function Numeral(x: int): (t: string)
    ensures 0 < |t|
  {
    if x < 0 then "-" + Digits(-x) else Digits(x)
  }

  /** White space only. */
  predicate IsBlank(gap: string) {
    forall i :: 0 <= i < |gap| ==> IsSpace(gap[i])
  }

  /** Integer arguments written out with the white space `gap` after each numeral and after each comma. */
  function Arguments(xs: seq<int>, gap: string): string {
    if |xs| == 0 then ""
    else if |xs| == 1 then Numeral(xs[0]) + gap
    else Numeral(xs[0]) + gap + "," + gap + Arguments(xs[1..], gap)
  }

  /** Commands with integer arguments written out as `name(gap arguments) ` one after another. */
  function Script(cmds: seq<(string, seq<int>)>, gap: string): string {
    if |cmds| == 0 then ""
    else cmds[0].0 + "(" + gap + Arguments(cmds[0].1, gap) + ") " + Script(cmds[1..], gap)
  }

  function Reals(xs: seq<int>): (rs: seq<real>)
    ensures |rs| == |xs| && forall i :: 0 <= i < |xs| ==> rs[i] == xs[i] as real
  {
    seq(|xs|, i requires 0 <= i < |xs| => xs[i] as real)
  }

  predicate IsName(name: string) {
    0 < |name| && forall i :: 0 <= i < |name| ==> IsWordChar(name[i])
  }

  // ------------------------------------------------------------------------- scanning facts

  /** s carries r from position d to its end: what the scans see past d is r. */
  ghost predicate Carries(s: string, r: string, d: nat) {
    |s| == d + |r| && forall m :: 0 <= m < |r| ==> s[d + m] == r[m]
  }

  lemma AppendCarries(p: string, r: string)
    ensures Carries(p + r, r, |p|)
  {
  }

  lemma CarriedSlice(s: string, r: string, d: nat, lo: nat, hi: nat)
    requires Carries(s, r, d) && lo <= hi <= |r|
    ensures s[d + lo..d + hi] == r[lo..hi]
  {
  }

  function Shift(a: Attempt, d: nat): Attempt {
    if a.Miss? then Miss else Hit(a.group1End + d, a.group2Start + d, a.group2End + d, a.matchEnd + d)
  }

  /** The matcher finds in s at d + j what it finds in r at j, moved by d. */
  ghost predicate Mirrors(s: string, r: string, d: nat, matcher: (string, nat) -> Attempt) {
    forall j :: 0 <= j <= |r| ==> matcher(s, d + j) == Shift(matcher(r, j), d)
  }

  lemma MatchAllShiftStep(s: string, r: string, d: nat, i: nat, matcher: (string, nat) -> Attempt)
    requires Carries(s, r, d) && Mirrors(s, r, d, matcher) && i < |r|
    ensures var a := matcher(r, i);
      MatchAll(s, d + i, matcher) ==
        if Fits(a, r, i) then [Found(r[i..a.group1End], r[a.group2Start..a.group2End])] + MatchAll(s, d + a.matchEnd, matcher)
        else MatchAll(s, d + i + 1, matcher)
  {
    var a := matcher(r, i);
    if Fits(a, r, i) {
      CarriedSlice(s, r, d, i, a.group1End);
      CarriedSlice(s, r, d, a.group2Start, a.group2End);
    }
  }

  /** The match-all of s from d + i on is the match-all of r from i on. */
  lemma {:induction false} MatchAllShift(s: string, r: string, d: nat, i: nat, matcher: (string, nat) -> Attempt)
    requires Carries(s, r, d) && Mirrors(s, r, d, matcher) && i <= |r|
    ensures MatchAll(s, d + i, matcher) == MatchAll(r, i, matcher)
    decreases |r| - i
  {
    if i < |r| {
      MatchAllShiftStep(s, r, d, i, matcher);
      var a := matcher(r, i);
      if Fits(a, r, i) {
        MatchAllShift(s, r, d, a.matchEnd, matcher);
      } else {
        MatchAllShift(s, r, d, i + 1, matcher);
      }
    }
  }

  /** A prefix in which the matcher finds nothing is passed over. */
  lemma ScanPastMisses(head: string, rest: string, matcher: (string, nat) -> Attempt)
    requires Carries(head + rest, rest, |head|) && Mirrors(head + rest, rest, |head|, matcher)
    requires forall m :: 0 <= m < |head| ==> matcher(head + rest, m).Miss?
    ensures MatchAll(head + rest, 0, matcher) == MatchAll(rest, 0, matcher)
  {
    SkipMisses(head + rest, 0, |head|, matcher);
    MatchAllShift(head + rest, rest, |head|, 0, matcher);
  }

  /**
   * A prefix that starts with a match ending at e, after which the matcher finds nothing,
   * yields that one match before the scan of what follows.
   */
  lemma ScanPastHit(head: string, rest: string, matcher: (string, nat) -> Attempt, e: nat)
    requires Carries(head + rest, rest, |head|) && Mirrors(head + rest, rest, |head|, matcher)
    requires Fits(matcher(head + rest, 0), head + rest, 0) && matcher(head + rest, 0).matchEnd == e <= |head|
    requires forall m :: e <= m < |head| ==> matcher(head + rest, m).Miss?
    ensures var a := matcher(head + rest, 0);
      MatchAll(head + rest, 0, matcher) ==
        [Found(head[0..a.group1End], head[a.group2Start..a.group2End])] + MatchAll(rest, 0, matcher)
  {
    var s := head + rest;
    var a := matcher(s, 0);
    MatchAllHit(s, 0, matcher);
    assert s[0..a.group1End] == head[0..a.group1End];
    assert s[a.group2Start..a.group2End] == head[a.group2Start..a.group2End];
    SkipMisses(s, e, |head|, matcher);
    MatchAllShift(s, rest, |head|, 0, matcher);
  }

  /** What lies before position d does not change a run. */
  lemma {:induction false} RunEndShift(s: string, r: string, d: nat, i: nat, k: CharClass)
    requires Carries(s, r, d) && i <= |r|
    ensures RunEnd(s, d + i, k) == d + RunEnd(r, i, k)
    decreases |r| - i
  {
    if i < |r| {
      assert s[d + i] == r[i];
      if InClass(r[i], k) {
        RunEndShift(s, r, d, i + 1, k);
      }
    }
  }

  lemma NumeralEndShift(s: string, r: string, d: nat, i: nat)
    requires Carries(s, r, d) && i <= |r|
    ensures NumeralEnd(s, d + i) == d + NumeralEnd(r, i)
  {
    if i < |r| {
      assert s[d + i] == r[i];
    }
    var digitsStart := SignEnd(r, i);
    RunEndShift(s, r, d, digitsStart, Digit);
    var wholeEnd := RunEnd(r, digitsStart, Digit);
    if wholeEnd < |r| {
      assert s[d + wholeEnd] == r[wholeEnd];
      RunEndShift(s, r, d, wholeEnd + 1, Digit);
    }
  }

  lemma MatchNumberShift(s: string, r: string, d: nat, i: nat)
    requires Carries(s, r, d) && i <= |r|
    ensures MatchNumber(s, d + i) == Shift(MatchNumber(r, i), d)
  {
    if i < |r| {
      NumeralEndShift(s, r, d, i);
      var numberEnd := NumeralEnd(r, i);
      RunEndShift(s, r, d, numberEnd, Space);
      var spacesEnd := RunEnd(r, numberEnd, Space);
      if spacesEnd < |r| {
        assert s[d + spacesEnd] == r[spacesEnd];
      }
    }
  }

  lemma NumbersMirrored(s: string, r: string, d: nat)
    requires Carries(s, r, d)
    ensures Mirrors(s, r, d, MatchNumber)
  {
    forall j | 0 <= j <= |r|
      ensures MatchNumber(s, d + j) == Shift(MatchNumber(r, j), d)
    {
      MatchNumberShift(s, r, d, j);
    }
  }

  lemma MatchCommandShift(s: string, r: string, d: nat, i: nat)
    requires Carries(s, r, d) && i <= |r|
    ensures MatchCommand(s, d + i) == Shift(MatchCommand(r, i), d)
  {
    if i < |r| {
      RunEndShift(s, r, d, i, Word);
      var nameEnd := RunEnd(r, i, Word);
      if nameEnd < |r| {
        assert s[d + nameEnd] == r[nameEnd];
        RunEndShift(s, r, d, nameEnd + 1, NotClose);
      }
    }
  }

  lemma CommandsMirrored(s: string, r: string, d: nat)
    requires Carries(s, r, d)
    ensures Mirrors(s, r, d, MatchCommand)
  {
    forall j | 0 <= j <= |r|
      ensures MatchCommand(s, d + j) == Shift(MatchCommand(r, j), d)
    {
      MatchCommandShift(s, r, d, j);
    }
  }

  lemma {:induction false} DigitsValueShift(p: string, r: string, lo: nat, hi: nat)
    requires lo <= hi <= |r|
    ensures DigitsValue(p + r, |p| + lo, |p| + hi) == DigitsValue(r, lo, hi)
    decreases hi - lo
  {
    if lo < hi {
      assert (p + r)[|p| + hi - 1] == r[hi - 1];
      DigitsValueShift(p, r, lo, hi - 1);
    }
  }

  lemma {:induction false} DigitsValuePrefix(p: string, r: string, lo: nat, hi: nat)
    requires lo <= hi <= |p|
    ensures DigitsValue(p + r, lo, hi) == DigitsValue(p, lo, hi)
    decreases hi - lo
  {
    if lo < hi {
      DigitsValuePrefix(p, r, lo, hi - 1);
    }
  }

  // ------------------------------------------------------------------------- properties

  /** Every command match has a name of word characters and arguments without a closing parenthesis. */
  lemma {:induction false} CommandShapes(s: string, i: nat)
    requires i <= |s|
    ensures forall f :: f in MatchAll(s, i, MatchCommand) ==> IsName(f.group1) && ')' !in f.group2
    decreases |s| - i
  {
    if i < |s| {
      var a := MatchCommand(s, i);
      if a.Hit? {
        RunEndClass(s, i, Word);
        RunEndClass(s, a.group2Start, NotClose);
        var arguments := s[a.group2Start..a.group2End];
        assert forall j :: 0 <= j < |arguments| ==> arguments[j] == s[a.group2Start + j];
        CommandShapes(s, a.matchEnd);
      } else {
        CommandShapes(s, i + 1);
      }
    }
  }

  /** The digits of n read back as n. */
  lemma {:induction false} DigitsValueOfDigits(n: nat)
    ensures DigitsValue(Digits(n), 0, |Digits(n)|) == n
  {
    if n >= 10 {
      var ds := Digits(n);
      var front := Digits(n / 10);
      assert ds == front + [DigitChar(n % 10)];
      DigitsValuePrefix(front, [DigitChar(n % 10)], 0, |front|);
      DigitsValueOfDigits(n / 10);
    }
  }

  /** The digits of a numeral: those of its magnitude, after the optional minus sign. */
  lemma NumeralDigits(x: int)
    ensures var t := Numeral(x);
            var sign := if x < 0 then 1 else 0;
            SignEnd(t, 0) == sign && sign < |t| &&
            (forall m :: sign <= m < |t| ==> IsDigit(t[m])) &&
            DigitsValue(t, sign, |t|) == if x < 0 then -x else x
  {
    var magnitude := if x < 0 then -x else x;
    DigitsValueOfDigits(magnitude);
    if x < 0 {
      DigitsValueShift("-", Digits(magnitude), 0, |Digits(magnitude)|);
    }
  }

  /** A numeral is read back as its integer. */
  lemma NumeralValue(x: int)
    ensures ParseFloat(Numeral(x)) == x as real
  {
    var t := Numeral(x);
    NumeralDigits(x);
    RunEndAt(t, SignEnd(t, 0), |t|, Digit);
  }

  /**
   * A numeral followed by white space and then a comma, or by white space to the end, is
   * one number match, and the match takes the comma.
   */
  lemma NumeralMatch(x: int, gap: string, rest: string)
    requires IsBlank(gap)
    requires rest == "" || rest[0] == ','
    ensures var n, s := Numeral(x), Numeral(x) + gap + rest;
      var matchEnd := if rest == "" then |s| else |n + gap| + 1;
      MatchNumber(s, 0) == Hit(|n|, |n|, matchEnd, matchEnd)
  {
    var n := Numeral(x);
    var s := n + gap + rest;
    NumeralDigits(x);
    assert forall m :: 0 <= m < |n| ==> s[m] == n[m];
    assert forall m :: 0 <= m < |gap| ==> s[|n| + m] == gap[m];
    assert |n + gap| < |s| ==> s[|n + gap|] == ',';
    RunEndAt(s, SignEnd(s, 0), |n|, Digit);
    RunEndAt(s, |n|, |n + gap|, Space);
  }

  /** No number starts at a character that is neither a digit nor a minus sign. */
  lemma NoNumberAt(s: string, i: nat)
    requires i < |s| && !IsDigit(s[i]) && s[i] != '-'
    ensures MatchNumber(s, i).Miss?
  {
  }

  /** Positions where the matcher misses are passed over one by one. */
  lemma {:induction false} SkipMisses(s: string, i: nat, j: nat, matcher: (string, nat) -> Attempt)
    requires i <= j <= |s| && forall m :: i <= m < j ==> matcher(s, m).Miss?
    ensures MatchAll(s, i, matcher) == MatchAll(s, j, matcher)
    decreases j - i
  {
    if i < j {
      SkipMisses(s, i + 1, j, matcher);
    }
  }

  /** What the number scan finds in written arguments: each numeral, with the white space and comma after it. */
  function WrittenNumbers(xs: seq<int>, gap: string): seq<Found> {
    seq(|xs|, k requires 0 <= k < |xs| => Found(Numeral(xs[k]), if k + 1 < |xs| then gap + "," else gap))
  }

  lemma WrittenNumbersSplit(xs: seq<int>, gap: string)
    requires |xs| > 1
    ensures WrittenNumbers(xs, gap) == [Found(Numeral(xs[0]), gap + ",")] + WrittenNumbers(xs[1..], gap)
  {
  }

  /** The last argument is one number match that takes the white space after it. */
  lemma LastArgumentMatched(x: int, gap: string)
    requires IsBlank(gap)
    ensures MatchAll(Numeral(x) + gap, 0, MatchNumber) == [Found(Numeral(x), gap)]
  {
    var n := Numeral(x);
    var s := n + gap;
    NumeralMatch(x, gap, "");
    assert n + gap + "" == s;
    MatchAllHit(s, 0, MatchNumber);
    assert s[0..|n|] == n;
    assert s[|n|..|s|] == gap;
  }

  /** White space before argument text is passed over. */
  lemma GapIgnored(gap: string, r: string)
    requires IsBlank(gap)
    ensures MatchAll(gap + r, 0, MatchNumber) == MatchAll(r, 0, MatchNumber)
  {
    forall m | 0 <= m < |gap|
      ensures MatchNumber(gap + r, m).Miss?
    {
      NoNumberAt(gap + r, m);
    }
    AppendCarries(gap, r);
    NumbersMirrored(gap + r, r, |gap|);
    ScanPastMisses(gap, r, MatchNumber);
  }

  /** An argument before a comma is one number match, and the scan goes on with the next argument. */
  lemma FirstArgumentMatched(x: int, gap: string, tail: string)
    requires IsBlank(gap)
    ensures MatchAll(Numeral(x) + gap + "," + gap + tail, 0, MatchNumber) ==
      [Found(Numeral(x), gap + ",")] + MatchAll(tail, 0, MatchNumber)
  {
    var n := Numeral(x);
    var head := n + gap + "," + gap;
    var s := head + tail;
    var e := |n| + |gap| + 1;
    NumeralMatch(x, gap, "," + gap + tail);
    assert n + gap + ("," + gap + tail) == s;
    forall m | e <= m < |head|
      ensures MatchNumber(s, m).Miss?
    {
      assert s[m] == gap[m - e];
      NoNumberAt(s, m);
    }
    AppendCarries(head, tail);
    NumbersMirrored(s, tail, |head|);
    ScanPastHit(head, tail, MatchNumber, e);
    ArgumentSlices(n, gap);
  }

  lemma ArgumentSlices(n: string, gap: string)
    ensures var head := n + gap + "," + gap;
      head[0..|n|] == n && head[|n|..|n| + |gap| + 1] == gap + ","
  {
    var head := n + gap + "," + gap;
    assert head[0..|n|] == n;
    assert head[|n|..|n| + |gap| + 1] == gap + ",";
  }

  /** The arguments `x1, x2, ..., xn`, white space included, are matched as the numerals x1 ... xn. */
  lemma {:induction false} ArgumentsMatched(xs: seq<int>, gap: string)
    requires IsBlank(gap)
    ensures MatchAll(Arguments(xs, gap), 0, MatchNumber) == WrittenNumbers(xs, gap)
  {
    if |xs| == 1 {
      LastArgumentMatched(xs[0], gap);
    } else if |xs| > 1 {
      FirstArgumentMatched(xs[0], gap, Arguments(xs[1..], gap));
      ArgumentsMatched(xs[1..], gap);
      WrittenNumbersSplit(xs, gap);
    }
  }

  /** Written arguments are read back as the integers written, whatever white space surrounds them. */
  lemma ArgumentsRoundTrip(xs: seq<int>, gap: string)
    requires IsBlank(gap)
    ensures Inputs(Arguments(xs, gap)) == Reals(xs)
  {
    ArgumentsMatched(xs, gap);
    forall k | 0 <= k < |xs|
      ensures ParseFloat(Numeral(xs[k])) == xs[k] as real
    {
      NumeralValue(xs[k]);
    }
  }

  /** Argument text, with the white space before it, holds no `)`. */
  lemma {:induction false} ArgumentsHaveNoClose(xs: seq<int>, gap: string)
    requires IsBlank(gap)
    ensures ')' !in gap + Arguments(xs, gap)
  {
    if |xs| > 1 {
      ArgumentsHaveNoClose(xs[1..], gap);
    }
  }

  /** A hit at i is the first match of the scan from i, and the scan resumes where it ends. */
  lemma MatchAllHit(s: string, i: nat, matcher: (string, nat) -> Attempt)
    requires i <= |s| && Fits(matcher(s, i), s, i)
    ensures var a := matcher(s, i);
      MatchAll(s, i, matcher) == [Found(s[i..a.group1End], s[a.group2Start..a.group2End])] + MatchAll(s, a.matchEnd, matcher)
  {
  }

  /** The command expression at the start of `name(args)` matches up to and including the `)`. */
  lemma CommandMatched(name: string, args: string, rest: string)
    requires IsName(name) && ')' !in args
    ensures var close := |name| + 1 + |args|;
      MatchCommand(name + "(" + args + ")" + rest, 0) == Hit(|name|, |name| + 1, close, close + 1)
  {
    var s := name + "(" + args + ")" + rest;
    var close := |name| + 1 + |args|;
    assert forall m :: 0 <= m < |name| ==> s[m] == name[m];
    assert s[|name|] == '(';
    assert forall m :: 0 <= m < |args| ==> s[|name| + 1 + m] == args[m];
    assert s[close] == ')';
    RunEndAt(s, 0, |name|, Word);
    RunEndAt(s, |name| + 1, close, NotClose);
  }

  /** One written command is matched whole, and the scan resumes right after its `)`. */
  lemma WrittenCommand(name: string, args: string, rest: string)
    requires IsName(name) && ')' !in args
    ensures MatchAll(name + "(" + args + ")" + rest, 0, MatchCommand) ==
      [Found(name, args)] + MatchAll(rest, 0, MatchCommand)
  {
    var head := name + "(" + args + ")";
    CommandMatched(name, args, rest);
    AppendCarries(head, rest);
    CommandsMirrored(head + rest, rest, |head|);
    ScanPastHit(head, rest, MatchCommand, |head|);
    assert head[0..|name|] == name;
    assert head[|name| + 1..|name| + 1 + |args|] == args;
  }

  /** The space after a written command is passed over. */
  lemma SpaceBeforeCommand(rest: string)
    ensures MatchAll(" " + rest, 0, MatchCommand) == MatchAll(rest, 0, MatchCommand)
  {
    assert MatchCommand(" " + rest, 0).Miss?;
    AppendCarries(" ", rest);
    CommandsMirrored(" " + rest, rest, 1);
    ScanPastMisses(" ", rest, MatchCommand);
  }

  /** What the command scan finds in a script: each name, with its argument text. */
  function WrittenCommands(cmds: seq<(string, seq<int>)>, gap: string): seq<Found> {
    seq(|cmds|, i requires 0 <= i < |cmds| => Found(cmds[i].0, gap + Arguments(cmds[i].1, gap)))
  }

  lemma WrittenCommandsSplit(cmds: seq<(string, seq<int>)>, gap: string)
    requires |cmds| > 0
    ensures WrittenCommands(cmds, gap) ==
      [Found(cmds[0].0, gap + Arguments(cmds[0].1, gap))] + WrittenCommands(cmds[1..], gap)
  {
  }

  /** A script is matched as one group per written command, in order. */
  lemma {:induction false} ScriptMatched(cmds: seq<(string, seq<int>)>, gap: string)
    requires IsBlank(gap) && forall i :: 0 <= i < |cmds| ==> IsName(cmds[i].0)
    ensures MatchAll(Script(cmds, gap), 0, MatchCommand) == WrittenCommands(cmds, gap)
  {
    if |cmds| > 0 {
      var rest := Script(cmds[1..], gap);
      var args := gap + Arguments(cmds[0].1, gap);
      ArgumentsHaveNoClose(cmds[0].1, gap);
      ScriptSplit(cmds, gap);
      calc {
        MatchAll(Script(cmds, gap), 0, MatchCommand);
        { WrittenCommand(cmds[0].0, args, " " + rest); }
        [Found(cmds[0].0, args)] + MatchAll(" " + rest, 0, MatchCommand);
        { SpaceBeforeCommand(rest); ScriptMatched(cmds[1..], gap); }
        [Found(cmds[0].0, args)] + WrittenCommands(cmds[1..], gap);
        { WrittenCommandsSplit(cmds, gap); }
        WrittenCommands(cmds, gap);
      }
    }
  }

  lemma ScriptSplit(cmds: seq<(string, seq<int>)>, gap: string)
    requires |cmds| > 0
    ensures Script(cmds, gap) ==
      cmds[0].0 + "(" + (gap + Arguments(cmds[0].1, gap)) + ")" + (" " + Script(cmds[1..], gap))
  {
  }

  /**
   * Commands written out with integer arguments are parsed back as the same commands, in
   * order, whatever white space surrounds the arguments.
   */
  lemma ScriptRoundTrip(cmds: seq<(string, seq<int>)>, gap: string)
    requires IsBlank(gap) && forall i :: 0 <= i < |cmds| ==> IsName(cmds[i].0)
    ensures ParseCommands(Script(cmds, gap)) ==
      seq(|cmds|, i requires 0 <= i < |cmds| => Command(cmds[i].0, Reals(cmds[i].1)))
  {
    ScriptMatched(cmds, gap);
    forall i | 0 <= i < |cmds|
      ensures Inputs(gap + Arguments(cmds[i].1, gap)) == Reals(cmds[i].1)
    {
      GapIgnored(gap, Arguments(cmds[i].1, gap));
      ArgumentsRoundTrip(cmds[i].1, gap);
    }
  }

  /**
   * The scan can start inside text the number expression refused: in `1.5.3` the match
   * at `1.5` fails on the second point, and the scan then finds `5.3`.
   */
  lemma RescanInsideNumber(t: string)
    requires |t| == 5 && t[0] == '1' && t[1] == '.' && t[2] == '5' && t[3] == '.' && t[4] == '3'
    ensures Inputs(t) == [5.3]
  {
    var u := t[2..];
    RunEndAt(t, 0, 1, Digit);
    RunEndAt(t, 2, 3, Digit);
    RunEndAt(t, 3, 3, Space);
    assert MatchNumber(t, 0).Miss?;
    NoNumberAt(t, 1);
    SkipMisses(t, 0, 2, MatchNumber);
    assert Carries(t, u, 2);
    NumbersMirrored(t, u, 2);
    MatchAllShift(t, u, 2, 0, MatchNumber);
    NumeralFiveThree(u);
    MatchAllHit(u, 0, MatchNumber);
    assert u[0..3] == u;
    assert MatchAll(t, 0, MatchNumber) == [Found(u, u[3..3])];
  }

  lemma NumeralFiveThree(u: string)
    requires |u| == 3 && u[0] == '5' && u[1] == '.' && u[2] == '3'
    ensures MatchNumber(u, 0) == Hit(3, 3, 3, 3) && ParseFloat(u) == 5.3
  {
    RunEndAt(u, 0, 1, Digit);
    RunEndAt(u, 2, 3, Digit);
    RunEndAt(u, 3, 3, Space);
    assert DigitsValue(u, 0, 1) == 5;
    assert FractionValue(u, 2, 3) == 0.3;
  }
}
