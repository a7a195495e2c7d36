/**
 Command lines on Windows: a command line is printed as one string, which the rules of
 CommandLineToArgvW take apart again.
 */
module CommandLineWindows {
  import opened CommandLineParsing

  // ---------------------------------------------------------------------------------------
  // The tokenizer
  // ---------------------------------------------------------------------------------------

  /** Between two characters: the tokens so far, the one being read, and backslashes not yet understood. */
  datatype Scan = Scan(tokens: seq<string>, current: string, inToken: bool, inQuotes: bool, slashes: nat)

  const START := Scan([], "", false, false, 0)

  function Slashes(n: nat): string {
    if n == 0 then "" else "\\" + Slashes(n - 1)
  }

  predicate IsBlank(c: char) {
    c == ' ' || c == '\t'
  }

  /**
   A double quote behind an odd number of backslashes is meant literally, and else switches quoting on
   or off; before a double quote two backslashes stand for one.  Blanks outside quotes end a token.
   */
  function Next(s: Scan, c: char): Scan {
    if c == '\\' then s.(inToken := true, slashes := s.slashes + 1)
    else if c == '"' then
      if s.slashes % 2 == 1 then
        s.(current := s.current + Slashes(s.slashes / 2) + "\"", inToken := true, slashes := 0)
      else
        s.(current := s.current + Slashes(s.slashes / 2), inToken := true, inQuotes := !s.inQuotes, slashes := 0)
    else if IsBlank(c) && !s.inQuotes then EndToken(s)
    else s.(current := s.current + Slashes(s.slashes) + [c], inToken := true, slashes := 0)
  }

  function EndToken(s: Scan): Scan {
    if s.inToken then Scan(s.tokens + [s.current + Slashes(s.slashes)], "", false, s.inQuotes, 0) else s
  }

  function ScanFrom(s: Scan, text: string): Scan
    decreases |text|
  {
    if text == "" then s else ScanFrom(Next(s, text[0]), text[1..])
  }

  function Tokenize(text: string): seq<string> {
    EndToken(ScanFrom(START, text)).tokens
  }

  lemma {:induction false} ScanSum(s: Scan, a: string, b: string)
    ensures ScanFrom(s, a + b) == ScanFrom(ScanFrom(s, a), b)
    decreases |a|
  {
    if a == "" {
      assert a + b == b;
    } else {
      assert (a + b)[1..] == a[1..] + b;
      ScanSum(Next(s, a[0]), a[1..], b);
    }
  }

  lemma ScanOne(s: Scan, c: char)
    ensures ScanFrom(s, [c]) == Next(s, c)
  {
    assert [c][1..] == "";
  }

  lemma {:induction false} ScanSlashes(s: Scan, n: nat)
    ensures ScanFrom(s, Slashes(n)) == if n == 0 then s else s.(inToken := true, slashes := s.slashes + n)
    decreases n
  {
    if n > 0 {
      assert Slashes(n)[1..] == Slashes(n - 1);
      ScanSlashes(Next(s, '\\'), n - 1);
    }
  }

  // ---------------------------------------------------------------------------------------
  // Quoting
  // ---------------------------------------------------------------------------------------

  predicate NeedsQuotes(c: char) {
    c == ' ' || c == '\\' || c == '"'
  }

  predicate IsQuoted(arg: string) {
    exists i :: 0 <= i < |arg| && NeedsQuotes(arg[i])
  }

  function RunEnd(arg: string, i: nat): (end: nat)
    requires i <= |arg|
    ensures i <= end <= |arg|
    decreases |arg| - i
  {
    if i < |arg| && arg[i] == '\\' then RunEnd(arg, i + 1) else i
  }

  lemma {:induction false} RunEndSpec(arg: string, i: nat)
    requires i <= |arg|
    ensures forall j :: i <= j < RunEnd(arg, i) ==> arg[j] == '\\'
    ensures RunEnd(arg, i) < |arg| ==> arg[RunEnd(arg, i)] != '\\'
    decreases |arg| - i
  {
    if i < |arg| && arg[i] == '\\' {
      RunEndSpec(arg, i + 1);
    }
  }

  /** Backslashes are escapes only before a double quote, and the end of the argument will be one. */
  function RunLength(arg: string, i: nat, end: nat): nat
    requires i <= end <= |arg|
  {
    if end == |arg| || arg[end] == '"' then 2 * (end - i) else end - i
  }

  function Body(arg: string, i: nat): string
    requires i <= |arg|
    decreases |arg| - i
  {
    if i == |arg| then ""
    else if arg[i] == '\\' then
      var end := RunEnd(arg, i + 1);
      Slashes(RunLength(arg, i, end)) + Body(arg, end)
    else if arg[i] == '"' then "\\\"" + Body(arg, i + 1)
    else [arg[i]] + Body(arg, i + 1)
  }

  function Quoted(arg: string): string {
    if IsQuoted(arg) then "\"" + Body(arg, 0) + "\"" else arg
  }

  predicate Ordinary(arg: string, i: nat) {
    i < |arg| && arg[i] != '\\' && arg[i] != '"'
  }

  lemma OneAndRest(current: string, arg: string, i: nat)
    requires i < |arg|
    ensures current + [arg[i]] + Slashes(0) + arg[i + 1..] == current + arg[i..]
  {
    assert arg[i..] == [arg[i]] + arg[i + 1..];
  }

  lemma OrdinaryIsRead(s: Scan, arg: string, i: nat)
    requires s.inQuotes && s.inToken && Ordinary(arg, i)
    ensures ScanFrom(s, Body(arg, i) + "\"")
         == ScanFrom(s.(current := s.current + Slashes(s.slashes) + [arg[i]], slashes := 0), Body(arg, i + 1) + "\"")
  {
    assert Body(arg, i) + "\"" == [arg[i]] + (Body(arg, i + 1) + "\"");
  }

  /** A double quote is printed behind a backslash, which makes the number of backslashes odd. */
  lemma QuoteIsRead(s: Scan, arg: string, i: nat, n: nat)
    requires s.inQuotes && s.inToken && i < |arg| && arg[i] == '"' && s.slashes == 2 * n
    ensures ScanFrom(s, Body(arg, i) + "\"")
         == ScanFrom(s.(current := s.current + Slashes(n) + [arg[i]], slashes := 0), Body(arg, i + 1) + "\"")
  {
    var text := Body(arg, i + 1) + "\"";
    assert Body(arg, i) + "\"" == ['\\'] + (['"'] + text);
  }

  /** Inside quotes, the rest of a quoted argument is read as that rest; n backslashes are still open. */
  lemma {:induction false} BodyIsRead(s: Scan, arg: string, i: nat, n: nat)
    requires i <= |arg| && s.inQuotes && s.inToken
    requires s.slashes == if Ordinary(arg, i) then n else 2 * n
    requires n > 0 && i < |arg| ==> arg[i] != '\\'
    ensures ScanFrom(s, Body(arg, i) + "\"")
         == s.(current := s.current + Slashes(n) + arg[i..], inQuotes := false, slashes := 0)
    decreases |arg| - i
  {
    if i == |arg| {
      assert Body(arg, i) + "\"" == ['"'];
      ScanOne(s, '"');
      assert arg[i..] == "";
      assert s.current + Slashes(n) + "" == s.current + Slashes(n);
    } else if arg[i] == '\\' {
      RunIsRead(s, arg, i);
    } else if arg[i] == '"' {
      QuoteIsRead(s, arg, i, n);
      BodyIsRead(s.(current := s.current + Slashes(n) + [arg[i]], slashes := 0), arg, i + 1, 0);
      OneAndRest(s.current + Slashes(n), arg, i);
    } else {
      OrdinaryIsRead(s, arg, i);
      BodyIsRead(s.(current := s.current + Slashes(n) + [arg[i]], slashes := 0), arg, i + 1, 0);
      OneAndRest(s.current + Slashes(n), arg, i);
    }
  }

  lemma {:induction false} SlashesAre(arg: string, i: nat, end: nat)
    requires i <= end <= |arg| && forall j :: i <= j < end ==> arg[j] == '\\'
    ensures arg[i..end] == Slashes(end - i)
    decreases end - i
  {
    if i < end {
      SlashesAre(arg, i + 1, end);
      assert arg[i..end] == [arg[i]] + arg[i + 1..end];
    }
  }

  /** A run of backslashes inside quotes. */
  lemma {:induction false} RunIsRead(s: Scan, arg: string, i: nat)
    requires i < |arg| && arg[i] == '\\' && s.inQuotes && s.inToken && s.slashes == 0
    ensures ScanFrom(s, Body(arg, i) + "\"")
         == s.(current := s.current + Slashes(0) + arg[i..], inQuotes := false, slashes := 0)
    decreases |arg| - i, 0
  {
    var end := RunEnd(arg, i + 1);
    RunEndSpec(arg, i + 1);
    var t := s.(slashes := RunLength(arg, i, end));
    RunLengthFits(arg, i, end);
    RunAndRest(s.current, arg, i, end);
    ScanRun(s, arg, i, end);
    BodyIsRead(t, arg, end, end - i);
  }

  lemma RunLengthFits(arg: string, i: nat, end: nat)
    requires i <= end <= |arg| && (end < |arg| ==> arg[end] != '\\')
    ensures RunLength(arg, i, end) == if Ordinary(arg, end) then end - i else 2 * (end - i)
  {
  }

  lemma ScanRun(s: Scan, arg: string, i: nat, end: nat)
    requires i < |arg| && arg[i] == '\\' && end == RunEnd(arg, i + 1)
    requires s.inToken && s.slashes == 0
    ensures ScanFrom(s, Body(arg, i) + "\"")
         == ScanFrom(s.(slashes := RunLength(arg, i, end)), Body(arg, end) + "\"")
  {
    var k := RunLength(arg, i, end);
    Assoc(Slashes(k), Body(arg, end), "\"");
    ScanSlashesThen(s, k, Body(arg, end) + "\"");
  }

  lemma ScanSlashesThen(s: Scan, n: nat, text: string)
    requires s.inToken
    ensures ScanFrom(s, Slashes(n) + text) == ScanFrom(s.(slashes := s.slashes + n), text)
  {
    ScanSlashes(s, n);
    ScanSum(s, Slashes(n), text);
  }

  lemma RunAndRest(current: string, arg: string, i: nat, end: nat)
    requires i <= end <= |arg| && forall j :: i <= j < end ==> arg[j] == '\\'
    ensures current + Slashes(end - i) + arg[end..] == current + Slashes(0) + arg[i..]
  {
    SlashesAre(arg, i, end);
    assert arg[i..] == arg[i..end] + arg[end..];
  }

  /** What the token being read is, so far. */
  function Content(s: Scan): string {
    s.current + Slashes(s.slashes)
  }

  /** From s to r just `text` has been read, as part of one token. */
  predicate ReadAs(s: Scan, r: Scan, text: string) {
    r.tokens == s.tokens && r.inToken && r.inQuotes == s.inQuotes && Content(r) == Content(s) + text
  }

  predicate Plain(text: string) {
    forall i :: 0 <= i < |text| ==> !IsBlank(text[i]) && text[i] != '"'
  }

  lemma {:induction false} SlashesSnoc(n: nat)
    ensures Slashes(n) + "\\" == Slashes(n + 1)
  {
    if n > 0 {
      SlashesSnoc(n - 1);
      assert "\\" + Slashes(n - 1) + "\\" == "\\" + (Slashes(n - 1) + "\\");
    }
  }

  /** Text without blanks and quotes is read as it is. */
  lemma {:induction false} PlainIsRead(s: Scan, text: string)
    requires Plain(text) && !s.inQuotes && (s.inToken || text != "")
    ensures ReadAs(s, ScanFrom(s, text), text)
    decreases |text|
  {
    if text != "" {
      var next := Next(s, text[0]);
      SlashesSnoc(s.slashes);
      assert Content(next) == Content(s) + [text[0]];
      PlainIsRead(next, text[1..]);
      assert Content(s) + text == Content(s) + [text[0]] + text[1..];
    } else {
      assert Content(s) + "" == Content(s);
    }
  }

  /** The tokenizer undoes the quoting of an argument, if that quotes it or it has no tab. */
  lemma QuotedIsRead(s: Scan, arg: string)
    requires arg != "" && !s.inQuotes && s.slashes == 0
    requires IsQuoted(arg) || '\t' !in arg
    ensures ReadAs(s, ScanFrom(s, Quoted(arg)), arg)
  {
    if IsQuoted(arg) {
      assert Quoted(arg) == ['"'] + (Body(arg, 0) + "\"");
      var next := s.(inToken := true, inQuotes := true);
      assert s.current + Slashes(0) == s.current;
      assert ScanFrom(s, Quoted(arg)) == ScanFrom(next, Body(arg, 0) + "\"");
      BodyIsRead(next, arg, 0, 0);
      assert arg[0..] == arg;
    } else {
      forall i | 0 <= i < |arg| ensures !IsBlank(arg[i]) && arg[i] != '"' {
        assert !NeedsQuotes(arg[i]) && arg[i] in arg;
      }
      PlainIsRead(s, arg);
    }
  }

  // ---------------------------------------------------------------------------------------
  // Printing
  // ---------------------------------------------------------------------------------------

  /** On Windows a slash introduces a switch, too. */
  predicate IsSwitchOnWindows(arg: string) {
    arg != "" && (arg[0] == '-' || arg[0] == '/')
  }

  function Printed(arg: string, asSwitch: bool): string {
    if asSwitch then SwitchString(arg) + if SwitchValue(arg) != "" then "=" + Quoted(SwitchValue(arg)) else ""
    else Quoted(arg)
  }

  predicate Prints(arg: string) {
    arg != "" && (IsQuoted(arg) || '\t' !in arg)
  }

  /** The token is printed so that it can be read again. */
  predicate Faithful(arg: string, asSwitch: bool) {
    if asSwitch then
      && Plain(SwitchString(arg)) && EqualsPosition(arg) != |arg| - 1
      && (SwitchValue(arg) != "" ==> Prints(SwitchValue(arg)))
    else
      Prints(arg)
  }

  lemma ReadAsSum(s: Scan, r: Scan, q: Scan, a: string, b: string)
    requires ReadAs(s, r, a) && ReadAs(r, q, b)
    ensures ReadAs(s, q, a + b)
  {
    assert Content(s) + a + b == Content(s) + (a + b);
  }

  lemma EqualsIsRead(s: Scan)
    requires s.inToken && !s.inQuotes
    ensures ReadAs(s, Next(s, '='), "=") && Next(s, '=').slashes == 0
  {
  }

  /** A switch, its name read, goes on with its value. */
  lemma ValueIsRead(s: Scan, value: string)
    requires s.inToken && !s.inQuotes && Prints(value)
    ensures ReadAs(s, ScanFrom(s, "=" + Quoted(value)), "=" + value)
  {
    ScanSum(s, "=", Quoted(value));
    ScanOne(s, '=');
    EqualsIsRead(s);
    QuotedIsRead(Next(s, '='), value);
    ReadAsSum(s, Next(s, '='), ScanFrom(Next(s, '='), Quoted(value)), "=", value);
  }

  lemma SwitchNameFirst(arg: string)
    requires IsSwitchOnWindows(arg)
    ensures SwitchString(arg) != ""
  {
    EqualsSpec(arg, 0);
  }

  lemma SwitchIsRead(s: Scan, arg: string)
    requires !s.inQuotes && s.slashes == 0 && Faithful(arg, true) && IsSwitchOnWindows(arg)
    ensures ReadAs(s, ScanFrom(s, Printed(arg, true)), arg)
  {
    var name, value := SwitchString(arg), SwitchValue(arg);
    SwitchNameFirst(arg);
    PlainIsRead(s, name);
    SplitAtEquals(arg);
    if value == "" {
      assert name + "" == name;
    } else {
      var named := ScanFrom(s, name);
      ScanSum(s, name, "=" + Quoted(value));
      ValueIsRead(named, value);
      ReadAsSum(s, named, ScanFrom(named, "=" + Quoted(value)), name, "=" + value);
    }
  }

  lemma TokenIsRead(s: Scan, arg: string, asSwitch: bool)
    requires !s.inQuotes && s.slashes == 0 && Faithful(arg, asSwitch) && (asSwitch ==> IsSwitchOnWindows(arg))
    ensures ReadAs(s, ScanFrom(s, Printed(arg, asSwitch)), arg)
  {
    if asSwitch {
      SwitchIsRead(s, arg);
    } else {
      QuotedIsRead(s, arg);
    }
  }

  /** There is a terminator among the first n entries. */
  predicate Terminated(args: seq<string>, n: nat)
    requires n <= |args|
  {
    n > 0 && (args[n - 1] == SWITCH_TERMINATOR || Terminated(args, n - 1))
  }

  /** Entry i is printed as a switch: no terminator comes before it. */
  predicate AsSwitch(args: seq<string>, i: nat)
    requires i < |args|
  {
    !Terminated(args, i + 1) && IsSwitchOnWindows(args[i])
  }

  /** The entries as they are printed. */
  function Pieces(args: seq<string>): seq<string> {
    seq(|args|, i requires 0 <= i < |args| => " " + Printed(args[i], AsSwitch(args, i)))
  }

  /** The first n pieces, one behind the other. */
  function TextTo(pieces: seq<string>, n: nat): string
    requires n <= |pieces|
  {
    if n == 0 then "" else TextTo(pieces, n - 1) + pieces[n - 1]
  }

  /** The command line behind the program. */
  function Tail(args: seq<string>): string {
    TextTo(Pieces(args), |args|)
  }

  ghost predicate AllFaithful(args: seq<string>) {
    forall i {:trigger args[i]} :: 0 <= i < |args| ==> Faithful(args[i], AsSwitch(args, i))
  }

  /** All of `args` has been read, the last of them perhaps not to its end. */
  predicate HasRead(s: Scan, args: seq<string>) {
    !s.inQuotes && EndToken(s) == Scan(args, "", false, false, 0)
  }

  lemma EntryIsRead(s: Scan, args: seq<string>, arg: string, asSwitch: bool)
    requires HasRead(s, args) && Faithful(arg, asSwitch) && (asSwitch ==> IsSwitchOnWindows(arg))
    ensures HasRead(ScanFrom(s, " " + Printed(arg, asSwitch)), args + [arg])
  {
    var between := Scan(args, "", false, false, 0);
    var text := Printed(arg, asSwitch);
    assert (" " + text)[1..] == text;
    TokenIsRead(between, arg, asSwitch);
    assert Content(between) + arg == arg;
  }

  /** What every further piece keeps, the whole text has. */
  lemma {:induction false} TextKeeps<T>(pieces: seq<string>, parts: seq<seq<T>>, n: nat, p: (string, seq<T>) -> bool)
    requires n <= |pieces| == |parts| && p("", [])
    requires forall text, done, i :: 0 <= i < n && p(text, done) ==> p(text + pieces[i], done + parts[i])
    ensures p(TextTo(pieces, n), Joined(parts, n))
  {
    if n > 0 {
      TextKeeps(pieces, parts, n - 1, p);
    }
  }

  /** The first n parts, one behind the other. */
  function Joined<T>(parts: seq<seq<T>>, n: nat): seq<T>
    requires n <= |parts|
  {
    if n == 0 then [] else Joined(parts, n - 1) + parts[n - 1]
  }

  lemma {:induction false} JoinedSingles<T>(parts: seq<seq<T>>, args: seq<T>, n: nat)
    requires n <= |parts| && n <= |args| && forall i :: 0 <= i < n ==> parts[i] == [args[i]]
    ensures Joined(parts, n) == args[..n]
  {
    if n > 0 {
      JoinedSingles(parts, args, n - 1);
    }
  }

  lemma TextIsRead(text: string, done: seq<string>, arg: string, asSwitch: bool)
    requires HasRead(ScanFrom(START, text), done)
    requires Faithful(arg, asSwitch) && (asSwitch ==> IsSwitchOnWindows(arg))
    ensures HasRead(ScanFrom(START, text + (" " + Printed(arg, asSwitch))), done + [arg])
  {
    ScanSum(START, text, " " + Printed(arg, asSwitch));
    EntryIsRead(ScanFrom(START, text), done, arg, asSwitch);
  }

  lemma TailIsRead(args: seq<string>)
    requires AllFaithful(args)
    ensures HasRead(ScanFrom(START, Tail(args)), args)
  {
    var p := (text, tokens) => HasRead(ScanFrom(START, text), tokens);
    var singles := seq(|args|, i requires 0 <= i < |args| => [args[i]]);
    forall text, done, i | 0 <= i < |args| && p(text, done) ensures p(text + Pieces(args)[i], done + singles[i]) {
      assert Faithful(args[i], AsSwitch(args, i));
      TextIsRead(text, done, args[i], AsSwitch(args, i));
    }
    TextKeeps(Pieces(args), singles, |args|, p);
    JoinedSingles(singles, args, |args|);
    assert args[..|args|] == args;
  }

  /** Taking the printed command line apart gives back the entries behind the program. */
  lemma PrintRoundTrip(args: seq<string>)
    requires AllFaithful(args)
    ensures Tokenize(Tail(args)) == args
  {
    TailIsRead(args);
  }

  // ---------------------------------------------------------------------------------------
  // The condition is needed
  // ---------------------------------------------------------------------------------------

  predicate NoBlank(text: string) {
    forall i :: 0 <= i < |text| ==> !IsBlank(text[i])
  }

  /** Nothing with a blank in it has been read. */
  ghost predicate BlankFree(s: Scan) {
    !s.inQuotes && NoBlank(s.current) && forall i {:trigger s.tokens[i]} :: 0 <= i < |s.tokens| ==> NoBlank(s.tokens[i])
  }

  lemma {:induction false} NoBlankSlashes(n: nat)
    ensures NoBlank(Slashes(n))
  {
    if n > 0 {
      NoBlankSlashes(n - 1);
    }
  }

  lemma BlankFreeEnd(s: Scan)
    requires BlankFree(s)
    ensures BlankFree(EndToken(s))
  {
    NoBlankSlashes(s.slashes);
  }

  /** Without quotes no token has a blank in it. */
  lemma {:induction false} UnquotedIsBlankFree(s: Scan, text: string)
    requires BlankFree(s) && '"' !in text
    ensures BlankFree(ScanFrom(s, text))
    decreases |text|
  {
    if text != "" {
      NoBlankSlashes(s.slashes);
      BlankFreeEnd(s);
      UnquotedIsBlankFree(Next(s, text[0]), text[1..]);
    }
  }

  lemma {:induction false} TokensGrow(s: Scan, text: string)
    ensures s.tokens <= ScanFrom(s, text).tokens
    decreases |text|
  {
    if text != "" {
      TokensGrow(Next(s, text[0]), text[1..]);
    }
  }

  /** After a blank outside quotes, a token that was begun is complete. */
  lemma {:induction false} BlankCompletes(s: Scan, text: string)
    requires BlankFree(s) && s.inToken && '"' !in text && !NoBlank(text)
    ensures |ScanFrom(s, text).tokens| > |s.tokens|
    decreases |text|
  {
    var next := Next(s, text[0]);
    TokensGrow(next, text[1..]);
    if !IsBlank(text[0]) {
      UnquotedIsBlankFree(s, [text[0]]);
      ScanOne(s, text[0]);
      var i :| 0 <= i < |text| && IsBlank(text[i]);
      assert text[1..][i - 1] == text[i];
      BlankCompletes(next, text[1..]);
    }
  }

  /** What is printed without quotes is taken apart into tokens without blanks. */
  lemma UnquotedTokens(text: string, i: nat)
    requires '"' !in text && i < |Tokenize(text)|
    ensures NoBlank(Tokenize(text)[i])
  {
    UnquotedIsBlankFree(START, text);
    BlankFreeEnd(ScanFrom(START, text));
  }

  /** A switch whose name has a blank falls apart. */
  lemma BlankNameFallsApart(name: string, more: string)
    requires name != "" && !IsBlank(name[0]) && '"' !in name && !NoBlank(name)
    ensures |Tokenize(" " + name + more)| > 0 && NoBlank(Tokenize(" " + name + more)[0])
  {
    var first := Next(START, name[0]);
    var named := ScanFrom(START, " " + name);
    assert (" " + name)[1..] == name && " " + name + more == (" " + name) + more;
    UnquotedIsBlankFree(START, [name[0]]);
    ScanOne(START, name[0]);
    var i :| 0 <= i < |name| && IsBlank(name[i]);
    assert name[1..][i - 1] == name[i];
    BlankCompletes(first, name[1..]);
    UnquotedIsBlankFree(START, " " + name);
    ScanSum(START, " " + name, more);
    TokensGrow(named, more);
  }

  lemma PlainOrBlank(text: string)
    requires '"' !in text
    ensures Plain(text) <==> NoBlank(text)
  {
    forall i | 0 <= i < |text| ensures text[i] != '"' {
      assert text[i] in text;
    }
  }

  lemma QuotedHasNoQuote(arg: string)
    requires !IsQuoted(arg)
    ensures '"' !in arg && Quoted(arg) == arg
  {
    forall i | 0 <= i < |arg| ensures arg[i] != '"' {
      assert !NeedsQuotes(arg[i]);
    }
  }

  lemma TabIsBlank(arg: string)
    requires '\t' in arg
    ensures !NoBlank(arg)
  {
    var i :| 0 <= i < |arg| && arg[i] == '\t';
    assert IsBlank(arg[i]);
  }

  /** What is read first, if anything, is not the entry. */
  predicate FallsApart(arg: string, asSwitch: bool) {
    var tokens := Tokenize(" " + Printed(arg, asSwitch));
    tokens == [] || tokens[0] != arg
  }

  lemma UnfaithfulArgument(arg: string)
    requires !Faithful(arg, false)
    ensures FallsApart(arg, false)
  {
    if arg == "" {
      assert " " + Quoted("") == " ";
      ScanOne(START, ' ');
    } else {
      QuotedHasNoQuote(arg);
      TabIsBlank(arg);
      if Tokenize(" " + arg) != [] {
        UnquotedTokens(" " + arg, 0);
      }
    }
  }

  lemma PlainTokenizes(name: string)
    requires Plain(name) && name != ""
    ensures Tokenize(" " + name) == [name]
  {
    assert (" " + name)[1..] == name;
    PlainIsRead(START, name);
    assert Content(START) + name == name;
  }

  lemma BlankWithin(arg: string, part: string, at: nat)
    requires at + |part| <= |arg| && arg[at..at + |part|] == part && !NoBlank(part)
    ensures !NoBlank(arg)
  {
    var i :| 0 <= i < |part| && IsBlank(part[i]);
    assert arg[at..at + |part|][i] == arg[at + i];
  }

  lemma BlankInName(arg: string)
    requires IsSwitchOnWindows(arg) && '"' !in SwitchString(arg) && !Plain(SwitchString(arg))
    ensures FallsApart(arg, true)
  {
    var name := SwitchString(arg);
    var more := if SwitchValue(arg) != "" then "=" + Quoted(SwitchValue(arg)) else "";
    SwitchNameFirst(arg);
    PlainOrBlank(name);
    BlankWithin(arg, name, 0);
    assert " " + Printed(arg, true) == " " + name + more;
    BlankNameFallsApart(name, more);
  }

  lemma BareEquals(arg: string)
    requires IsSwitchOnWindows(arg) && Plain(SwitchString(arg)) && EqualsPosition(arg) == |arg| - 1
    ensures FallsApart(arg, true)
  {
    var name := SwitchString(arg);
    SwitchNameFirst(arg);
    assert Printed(arg, true) == name;
    PlainTokenizes(name);
    assert |name| < |arg|;
  }

  lemma NoQuoteInSum(a: string, b: string)
    requires '"' !in a && '"' !in b
    ensures '"' !in a + b
  {
  }

  lemma ValueIsWithin(arg: string)
    requires SwitchValue(arg) != ""
    ensures |SwitchValue(arg)| <= |arg| && arg[|arg| - |SwitchValue(arg)|..|arg|] == SwitchValue(arg)
  {
  }

  lemma TabInValue(arg: string)
    requires IsSwitchOnWindows(arg) && '"' !in SwitchString(arg) && SwitchValue(arg) != ""
    requires !IsQuoted(SwitchValue(arg)) && '\t' in SwitchValue(arg)
    ensures FallsApart(arg, true)
  {
    var value := SwitchValue(arg);
    QuotedHasNoQuote(value);
    TabIsBlank(value);
    ValueIsWithin(arg);
    BlankWithin(arg, value, |arg| - |value|);
    NoQuoteInSum("=", value);
    NoQuoteInSum(SwitchString(arg), "=" + value);
    NoQuoteInSum(" ", Printed(arg, true));
    if Tokenize(" " + Printed(arg, true)) != [] {
      UnquotedTokens(" " + Printed(arg, true), 0);
    }
  }

  lemma UnfaithfulSwitch(arg: string)
    requires !Faithful(arg, true) && IsSwitchOnWindows(arg) && '"' !in SwitchString(arg)
    ensures FallsApart(arg, true)
  {
    if !Plain(SwitchString(arg)) {
      BlankInName(arg);
    } else if EqualsPosition(arg) == |arg| - 1 {
      BareEquals(arg);
    } else {
      TabInValue(arg);
    }
  }

  lemma FaithfulIsRead(arg: string, asSwitch: bool)
    requires Faithful(arg, asSwitch) && (asSwitch ==> IsSwitchOnWindows(arg))
    ensures Tokenize(" " + Printed(arg, asSwitch)) == [arg]
  {
    EntryIsRead(START, [], arg, asSwitch);
    assert [] + [arg] == [arg];
  }

  // ---------------------------------------------------------------------------------------
  // The methods
  // ---------------------------------------------------------------------------------------

  lemma Assoc(a: string, b: string, c: string)
    ensures (a + b) + c == a + (b + c)
  {
  }

  lemma QuotedWhen(arg: string)
    ensures ' ' !in arg && '\\' !in arg && '"' !in arg ==> Quoted(arg) == arg
    ensures ' ' in arg || '\\' in arg || '"' in arg ==>
              |Quoted(arg)| >= 2 && Quoted(arg)[0] == '"' == Quoted(arg)[|Quoted(arg)| - 1]
  {
    if c :| c in arg && (c == ' ' || c == '\\' || c == '"') {
      var i :| 0 <= i < |arg| && arg[i] == c;
      assert NeedsQuotes(arg[i]);
    }
  }

  /** Without a blank, a backslash and a double quote nothing is changed; with one of them quotes are put around. */
  method QuoteForCommandLineToArgvW(arg: string) returns (out: string)
    ensures out == Quoted(arg)
    ensures ' ' !in arg && '\\' !in arg && '"' !in arg ==> out == arg
    ensures ' ' in arg || '\\' in arg || '"' in arg ==> |out| >= 2 && out[0] == '"' == out[|out| - 1]
  {
    QuotedWhen(arg);
    if !(exists i :: 0 <= i < |arg| && NeedsQuotes(arg[i])) {
      return arg;
    }
    out := "\"";
    var i := 0;
    while i < |arg|
      invariant 0 <= i <= |arg|
      invariant out + Body(arg, i) == "\"" + Body(arg, 0)
    {
      var text, next := QuoteOne(arg, i);
      Assoc(out, text, Body(arg, next));
      out := out + text;
      i := next;
    }
    assert out + "" == out;
    out := out + "\"";
  }

  /** A character, or a run of backslashes. */
  method QuoteOne(arg: string, i: nat) returns (text: string, next: nat)
    requires i < |arg|
    ensures i < next <= |arg| && Body(arg, i) == text + Body(arg, next)
  {
    if arg[i] == '\\' {
      text, next := QuoteRun(arg, i);
    } else if arg[i] == '"' {
      text, next := "\\\"", i + 1;
    } else {
      text, next := [arg[i]], i + 1;
    }
  }

  method QuoteRun(arg: string, i: nat) returns (text: string, end: nat)
    requires i < |arg| && arg[i] == '\\'
    ensures end == RunEnd(arg, i + 1) && text == Slashes(RunLength(arg, i, end))
  {
    end := i + 1;
    while end < |arg| && arg[end] == '\\'
      invariant i < end <= |arg| && RunEnd(arg, end) == RunEnd(arg, i + 1)
    {
      end := end + 1;
    }
    var backslashCount := end - i;
    if end == |arg| || arg[end] == '"' {
      backslashCount := backslashCount * 2;
    }
    text := PushBackslashes("", backslashCount);
    assert text == Slashes(backslashCount);
  }

  method PushBackslashes(text: string, count: nat) returns (out: string)
    ensures out == text + Slashes(count)
  {
    out := text;
    var j := 0;
    while j < count
      invariant j <= count && out == text + Slashes(j)
    {
      SlashesSnoc(j);
      out := out + "\\";
      j := j + 1;
    }
  }

  method PrintEntry(arg: string, asSwitch: bool) returns (printed: string)
    ensures printed == Printed(arg, asSwitch)
  {
    if asSwitch {
      printed := SwitchString(arg);
      var switchValue := SwitchValue(arg);
      if switchValue != "" {
        switchValue := QuoteForCommandLineToArgvW(switchValue);
        printed := printed + ("=" + switchValue);
      }
    } else {
      printed := QuoteForCommandLineToArgvW(arg);
    }
  }

  lemma BehindProgram(program: string, args: seq<string>)
    ensures (program + Tail(args))[|program|..] == Tail(args)
    ensures AllFaithful(args) ==> Tokenize(Tail(args)) == args
  {
    if AllFaithful(args) {
      PrintRoundTrip(args);
    }
  }

  /** One turn of the loop below. */
  method PrintNext(args: seq<string>, i: nat, parsing: bool) returns (piece: string, parseSwitches: bool)
    requires i < |args| && (parsing <==> !Terminated(args, i))
    ensures piece == Pieces(args)[i] && (parseSwitches <==> !Terminated(args, i + 1))
  {
    var arg := args[i];
    parseSwitches := parsing && arg != SWITCH_TERMINATOR;
    var printed := PrintEntry(arg, parseSwitches && IsSwitchOnWindows(arg));
    piece := " " + printed;
  }

  /** The program, quoted, and the tail. */
  method GetCommandLineString(argv: seq<string>) returns (text: string)
    requires argv != []
    ensures text == Quoted(argv[0]) + Tail(argv[1..])
    ensures AllFaithful(argv[1..]) ==> Tokenize(text[|Quoted(argv[0])|..]) == argv[1..]
  {
    text := QuoteForCommandLineToArgvW(argv[0]);
    ghost var program := text;
    var tail := PrintTail(argv[1..]);
    text := text + tail;
    BehindProgram(program, argv[1..]);
  }

  /** The loop over switches and arguments. */
  method PrintTail(args: seq<string>) returns (text: string)
    ensures text == Tail(args)
  {
    text := "";
    var parseSwitches := true;
    var i := 0;
    while i < |args|
      invariant 0 <= i <= |args|
      invariant parseSwitches <==> !Terminated(args, i)
      invariant text == TextTo(Pieces(args), i)
    {
      var piece;
      piece, parseSwitches := PrintNext(args, i, parseSwitches);
      text := text + piece;
      i := i + 1;
    }
  }
}
