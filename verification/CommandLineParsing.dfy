/**
 Command lines on POSIX: a vector of tokens, the switches first, and an index of the switches.  The main
 results are that the index always agrees with the vector, and exactly when parsing what has been
 parsed changes nothing.
 */
module CommandLineParsing {
  const SWITCH_TERMINATOR := "--"

  // ---------------------------------------------------------------------------------------
  // Whitespace
  // ---------------------------------------------------------------------------------------

  predicate IsWhitespace(c: char) {
    '\t' <= c <= '\r' || c == ' '
  }

  /** Tab, line feed, vertical tab, form feed, carriage return and the blank. */
  const WHITESPACE := "\t\n\U{B}\U{C}\r "

  lemma WhitespaceIs(c: char)
    ensures IsWhitespace(c) <==> c in WHITESPACE
  {
    assert WHITESPACE == ['\t', '\n', '\U{B}', '\U{C}', '\r', ' '];
    if IsWhitespace(c) {
      assert c == WHITESPACE[0] || c == WHITESPACE[1] || c == WHITESPACE[2] || c == WHITESPACE[3]
             || c == WHITESPACE[4] || c == WHITESPACE[5];
    }
  }

  function TrimLeft(s: string): string {
    if s != "" && IsWhitespace(s[0]) then TrimLeft(s[1..]) else s
  }

  function TrimRight(s: string): string {
    if s != "" && IsWhitespace(s[|s| - 1]) then TrimRight(s[..|s| - 1]) else s
  }

  function Trim(s: string): string {
    TrimRight(TrimLeft(s))
  }

  predicate IsTrimmed(s: string) {
    s != "" ==> !IsWhitespace(s[0]) && !IsWhitespace(s[|s| - 1])
  }

  lemma {:induction false} TrimLeftSpec(s: string)
    ensures TrimLeft(s) != "" ==> !IsWhitespace(TrimLeft(s)[0])
  {
    if s != "" && IsWhitespace(s[0]) {
      TrimLeftSpec(s[1..]);
    }
  }

  lemma {:induction false} TrimRightSpec(s: string)
    ensures TrimRight(s) <= s
    ensures TrimRight(s) != "" ==> !IsWhitespace(TrimRight(s)[|TrimRight(s)| - 1])
  {
    if s != "" && IsWhitespace(s[|s| - 1]) {
      TrimRightSpec(s[..|s| - 1]);
    }
  }

  /** Trimming leaves a string without whitespace at its ends, and leaves such a string alone. */
  lemma TrimSpec(s: string)
    ensures IsTrimmed(Trim(s))
    ensures Trim(s) != "" ==> Trim(s)[0] !in WHITESPACE && Trim(s)[|Trim(s)| - 1] !in WHITESPACE
    ensures Trim(s) == s <==> IsTrimmed(s)
  {
    if Trim(s) != "" {
      WhitespaceIs(Trim(s)[0]);
      WhitespaceIs(Trim(s)[|Trim(s)| - 1]);
    }
    TrimLeftSpec(s);
    TrimRightSpec(TrimLeft(s));
  }

  lemma {:induction false} TrimLeftCuts(s: string) returns (i: nat)
    ensures i <= |s| && TrimLeft(s) == s[i..]
    ensures forall k :: 0 <= k < i ==> IsWhitespace(s[k])
  {
    i := 0;
    if s != "" && IsWhitespace(s[0]) {
      var j := TrimLeftCuts(s[1..]);
      i := j + 1;
      forall k | 0 <= k < i ensures IsWhitespace(s[k]) {
        assert k > 0 ==> s[k] == s[1..][k - 1];
      }
    }
  }

  lemma {:induction false} TrimRightCuts(s: string) returns (j: nat)
    ensures j <= |s| && TrimRight(s) == s[..j]
    ensures forall k :: j <= k < |s| ==> IsWhitespace(s[k])
  {
    j := |s|;
    if s != "" && IsWhitespace(s[|s| - 1]) {
      j := TrimRightCuts(s[..|s| - 1]);
      forall k | j <= k < |s| ensures IsWhitespace(s[k]) {
        assert k < |s| - 1 ==> s[k] == s[..|s| - 1][k];
      }
    }
  }

  /** Nothing but whitespace is cut off. */
  lemma TrimCuts(s: string) returns (i: nat, j: nat)
    ensures i <= j <= |s| && Trim(s) == s[i..j]
    ensures forall k :: 0 <= k < i || j <= k < |s| ==> s[k] in WHITESPACE
  {
    i := TrimLeftCuts(s);
    var m := TrimRightCuts(s[i..]);
    j := i + m;
    assert s[i..][..m] == s[i..j];
    forall k | 0 <= k < i || j <= k < |s| ensures s[k] in WHITESPACE {
      assert k >= j ==> s[k] == s[i..][k - i];
      WhitespaceIs(s[k]);
    }
  }

  // ---------------------------------------------------------------------------------------
  // Tokens
  // ---------------------------------------------------------------------------------------

  function GetSwitchPrefixLength(s: string): (n: nat)
    ensures n <= |s|
  {
    if "--" <= s then 2 else if "-" <= s then 1 else 0
  }

  function EqualsFrom(s: string, i: nat): (n: nat)
    requires i <= |s|
    ensures n <= |s|
    decreases |s| - i
  {
    if i == |s| || s[i] == '=' then i else EqualsFrom(s, i + 1)
  }

  /** The position of the first "=", or the end. */
  function EqualsPosition(s: string): (n: nat)
    ensures n <= |s|
  {
    EqualsFrom(s, 0)
  }

  lemma {:induction false} EqualsSpec(s: string, i: nat)
    requires i <= |s|
    ensures i <= EqualsFrom(s, i)
    ensures EqualsFrom(s, i) < |s| ==> s[EqualsFrom(s, i)] == '='
    ensures forall j :: i <= j < EqualsFrom(s, i) ==> s[j] != '='
    decreases |s| - i
  {
    if i < |s| && s[i] != '=' {
      EqualsSpec(s, i + 1);
    }
  }

  predicate NoEquals(s: string) {
    forall i :: 0 <= i < |s| ==> s[i] != '='
  }

  predicate IsSwitch(s: string) {
    GetSwitchPrefixLength(s) != 0
  }

  function SwitchString(s: string): string {
    s[..EqualsPosition(s)]
  }

  function SwitchValue(s: string): string {
    if EqualsPosition(s) < |s| then s[EqualsPosition(s) + 1..] else ""
  }

  /** The key under which a switch of that name is indexed. */
  function Key(name: string): string {
    name[GetSwitchPrefixLength(name)..]
  }

  /** The token a switch is put down as. */
  function Combined(name: string, value: string): string {
    WithPrefix(name) + if value != "" then "=" + value else ""
  }

  lemma EqualsAt(s: string, n: nat)
    requires n <= |s| && (n < |s| ==> s[n] == '=') && forall i :: 0 <= i < n ==> s[i] != '='
    ensures EqualsPosition(s) == n
  {
    EqualsSpec(s, 0);
  }

  function WithPrefix(name: string): string {
    if GetSwitchPrefixLength(name) == 0 then "--" + name else name
  }

  lemma WithPrefixSpec(name: string)
    ensures WithPrefix(name) != "" && WithPrefix(name)[0] == '-' && Key(WithPrefix(name)) == Key(name)
    ensures NoEquals(name) ==> NoEquals(WithPrefix(name))
  {
    assert ("--" + name)[2..] == name;
  }

  lemma PrefixOfCombined(name: string, value: string)
    ensures IsSwitch(Combined(name, value))
    ensures NoEquals(name) ==>
              && SwitchString(Combined(name, value)) == WithPrefix(name)
              && Key(SwitchString(Combined(name, value))) == Key(name)
              && SwitchValue(Combined(name, value)) == value
  {
    var full, s := WithPrefix(name), Combined(name, value);
    WithPrefixSpec(name);
    DashIsSwitch(s);
    if NoEquals(name) {
      EqualsAt(s, |full|);
    }
  }

  /** The token letter by letter: "--" unless the name begins with a dash, the name, and the value if there is one. */
  lemma TokenWritten(name: string, value: string)
    ensures var token, p := Combined(name, value), if "-" <= name then 0 else 2;
            var n := p + |name|;
            && n <= |token| && (forall i :: 0 <= i < p ==> token[i] == '-') && token[p..n] == name
            && (value == "" ==> |token| == n)
            && (value != "" ==> |token| > n && token[n] == '=' && token[n + 1..] == value)
  {
    assert "--" <= name ==> "-" <= name;
    var p := if "-" <= name then 0 else 2;
    var full := WithPrefix(name);
    assert |full| == p + |name| && full[p..] == name;
    assert Combined(name, value)[..|full|] == full;
  }

  /** A token tells the key and the value it was made from exactly when there is no "=" in the name. */
  lemma TokenTellsSwitch(name: string, value: string)
    ensures NoEquals(name) <==>
              Key(SwitchString(Combined(name, value))) == Key(name) && SwitchValue(Combined(name, value)) == value
  {
    PrefixOfCombined(name, value);
    var s := Combined(name, value);
    if !NoEquals(name) {
      KeyWithEquals(name);
      KeyWithoutEquals(s);
      var i :| 0 <= i < |Key(name)| && Key(name)[i] == '=';
    }
  }

  lemma KeyWithEquals(name: string)
    requires !NoEquals(name)
    ensures !NoEquals(Key(name))
  {
    var n := GetSwitchPrefixLength(name);
    var i :| 0 <= i < |name| && name[i] == '=';
    assert i >= n && Key(name)[i - n] == '=';
  }

  lemma KeyWithoutEquals(s: string)
    ensures NoEquals(Key(SwitchString(s)))
  {
    EqualsSpec(s, 0);
  }

  // ---------------------------------------------------------------------------------------
  // The index of the switches
  // ---------------------------------------------------------------------------------------

  type SwitchMap = map<string, string>

  function IndexOnto(before: SwitchMap, tokens: seq<string>): SwitchMap {
    if tokens == [] then before
    else
      var n := |tokens| - 1;
      IndexOnto(before, tokens[..n])[Key(SwitchString(tokens[n])) := SwitchValue(tokens[n])]
  }

  function Index(tokens: seq<string>): SwitchMap {
    IndexOnto(map[], tokens)
  }

  /** Token i is the last with its key. */
  ghost predicate IsLast(tokens: seq<string>, i: nat)
    requires i < |tokens|
  {
    forall j :: i < j < |tokens| ==> Key(SwitchString(tokens[j])) != Key(SwitchString(tokens[i]))
  }

  /** The index maps each key to the value of its last occurrence, and has no other keys. */
  lemma {:induction false} IndexIsLast(tokens: seq<string>, key: string) returns (i: nat)
    ensures key in Index(tokens) <==> exists j :: 0 <= j < |tokens| && Key(SwitchString(tokens[j])) == key
    ensures key in Index(tokens) ==>
              && i < |tokens| && Key(SwitchString(tokens[i])) == key && IsLast(tokens, i)
              && Index(tokens)[key] == SwitchValue(tokens[i])
  {
    i := 0;
    if tokens != [] {
      var n := |tokens| - 1;
      if Key(SwitchString(tokens[n])) == key {
        i := n;
      } else {
        i := IndexIsLast(tokens[..n], key);
        if key in Index(tokens) {
          assert tokens[..n][i] == tokens[i];
          forall j | i < j < |tokens| ensures Key(SwitchString(tokens[j])) != key {
            assert j < n ==> tokens[..n][j] == tokens[j];
          }
        } else {
          forall j | 0 <= j < |tokens| ensures Key(SwitchString(tokens[j])) != key {
            assert j < n ==> tokens[..n][j] == tokens[j];
          }
        }
      }
    }
  }

  // ---------------------------------------------------------------------------------------
  // Parsing
  // ---------------------------------------------------------------------------------------

  predicate Terminates(token: string) {
    Trim(token) == "--"
  }

  /** No terminator among the tokens: whatever comes next can be a switch. */
  ghost predicate Open(tokens: seq<string>) {
    forall i {:trigger Terminates(tokens[i])} :: 0 <= i < |tokens| ==> !Terminates(tokens[i])
  }

  /** Token i is read as a switch. */
  ghost predicate ReadAsSwitch(tokens: seq<string>, i: nat)
    requires i < |tokens|
  {
    Open(tokens[..i + 1]) && IsSwitch(Trim(tokens[i]))
  }

  /** What a token that is read as a switch is put down as: only a bare "=" at its end gets lost. */
  function Normal(token: string): string {
    Combined(SwitchString(token), SwitchValue(token))
  }

  /** The switches and the arguments of the tokens, as they are put down. */
  ghost function Switches(tokens: seq<string>): seq<string> {
    if tokens == [] then []
    else
      var n := |tokens| - 1;
      Switches(tokens[..n]) + if ReadAsSwitch(tokens, n) then [Normal(Trim(tokens[n]))] else []
  }

  ghost function Arguments(tokens: seq<string>): seq<string> {
    if tokens == [] then []
    else
      var n := |tokens| - 1;
      Arguments(tokens[..n]) + if ReadAsSwitch(tokens, n) then [] else [Trim(tokens[n])]
  }

  lemma {:induction false} SwitchesOfPrefix(tokens: seq<string>, n: nat)
    requires n <= |tokens|
    ensures Switches(tokens[..n]) <= Switches(tokens) && Arguments(tokens[..n]) <= Arguments(tokens)
  {
    if n == |tokens| {
      assert tokens[..n] == tokens;
    } else {
      var m := |tokens| - 1;
      SwitchesOfPrefix(tokens[..m], n);
      assert tokens[..m][..n] == tokens[..n];
    }
  }

  /**
   Parsing is a stable partition: each token goes either behind the switches, in place of those read
   before it, or behind the arguments; no token is lost and none is made up.
   */
  lemma {:induction false} StablePartition(tokens: seq<string>, i: nat)
    requires i < |tokens|
    ensures |Switches(tokens)| + |Arguments(tokens)| == |tokens|
    ensures if ReadAsSwitch(tokens, i) then
              var r := |Switches(tokens[..i])|;
              r < |Switches(tokens)| && Switches(tokens)[r] == Normal(Trim(tokens[i]))
            else
              var r := |Arguments(tokens[..i])|;
              r < |Arguments(tokens)| && Arguments(tokens)[r] == Trim(tokens[i])
  {
    CountConserved(tokens);
    var upTo := tokens[..i + 1];
    assert upTo[..i] == tokens[..i] && upTo[..i + 1] == upTo;
    SwitchesOfPrefix(tokens, i + 1);
  }

  lemma {:induction false} CountConserved(tokens: seq<string>)
    ensures |Switches(tokens)| + |Arguments(tokens)| == |tokens|
  {
    if tokens != [] {
      CountConserved(tokens[..|tokens| - 1]);
    }
  }

  // ---------------------------------------------------------------------------------------
  // Parsing what has been parsed
  // ---------------------------------------------------------------------------------------

  /** A switch that loses a bare "=" at its end, and with it what kept it a switch or kept it untrimmed. */
  predicate LosesEquals(token: string) {
    && |token| >= 2 && EqualsPosition(token) == |token| - 1
    && (token[..|token| - 1] == SWITCH_TERMINATOR || IsWhitespace(token[|token| - 2]))
  }

  /** A token that is put down as it is. */
  predicate Settles(token: string) {
    IsSwitch(token) && Trim(token) == token != SWITCH_TERMINATOR && Normal(token) == token
  }

  lemma DashIsSwitch(s: string)
    ensures IsSwitch(s) <==> s != "" && s[0] == '-'
  {
  }

  lemma SwitchStringIsSwitch(token: string)
    requires IsSwitch(token)
    ensures IsSwitch(SwitchString(token)) && SwitchString(token) != "" && EqualsPosition(token) > 0
  {
    EqualsSpec(token, 0);
    DashIsSwitch(token);
    DashIsSwitch(SwitchString(token));
  }

  lemma CombinedSwitch(name: string, value: string)
    requires IsSwitch(name)
    ensures Combined(name, value) == name + if value != "" then "=" + value else ""
  {
  }

  lemma SplitAtEquals(token: string)
    ensures token == SwitchString(token) + if EqualsPosition(token) < |token| then "=" + SwitchValue(token) else ""
    ensures SwitchValue(token) == "" <==> EqualsPosition(token) >= |token| - 1
  {
    EqualsSpec(token, 0);
    var n := EqualsPosition(token);
    if n < |token| {
      assert token == token[..n] + [token[n]] + token[n + 1..];
    }
  }

  lemma NormalIs(token: string)
    requires IsSwitch(token)
    ensures Normal(token) == if EqualsPosition(token) == |token| - 1 then token[..|token| - 1] else token
    ensures IsSwitch(Normal(token))
  {
    SwitchStringIsSwitch(token);
    CombinedSwitch(SwitchString(token), SwitchValue(token));
    SplitAtEquals(token);
    DashIsSwitch(SwitchString(token));
    DashIsSwitch(Normal(token));
  }

  lemma NormalSettles(token: string)
    requires IsSwitch(token) && IsTrimmed(token) && token != SWITCH_TERMINATOR
    ensures Settles(Normal(token)) <==> !LosesEquals(token)
    ensures IsSwitch(Normal(token)) && Normal(Normal(token)) == Normal(token)
    ensures LosesEquals(token) ==> NoEquals(Normal(token))
  {
    NormalIs(token);
    EqualsSpec(token, 0);
    var s := Normal(token);
    DashIsSwitch(token);
    DashIsSwitch(s);
    NormalIs(s);
    TrimSpec(s);
    if EqualsPosition(token) == |token| - 1 {
      EqualsAt(s, |s|);
      assert s[|s| - 1] == token[|token| - 2];
    }
  }

  ghost predicate AllSettle(switches: seq<string>) {
    forall k {:trigger switches[k]} :: 0 <= k < |switches| ==> Settles(switches[k])
  }

  lemma SettleSnoc(switches: seq<string>, s: string)
    ensures AllSettle(switches + [s]) <==> AllSettle(switches) && Settles(s)
    ensures AllNormal(switches) && IsSwitch(s) && Normal(s) == s && (!Settles(s) ==> NoEquals(s)) ==>
              AllNormal(switches + [s])
  {
    var next := switches + [s];
    if AllSettle(next) {
      assert Settles(next[|switches|]);
      forall k | 0 <= k < |switches| ensures Settles(switches[k]) {
        assert next[k] == switches[k];
      }
    }
  }

  /** None of the tokens is read as a switch, and none needs trimming. */
  ghost predicate AllArguments(args: seq<string>) {
    forall k {:trigger args[k]} :: 0 <= k < |args| ==> !ReadAsSwitch(args, k) && Trim(args[k]) == args[k]
  }

  lemma OpenSnoc(tokens: seq<string>, t: string)
    ensures Open(tokens + [t]) <==> Open(tokens) && !Terminates(t)
  {
    var next := tokens + [t];
    if Open(next) {
      forall i | 0 <= i < |tokens| ensures !Terminates(tokens[i]) {
        assert next[i] == tokens[i];
      }
      assert next[|tokens|] == t && !Terminates(next[|tokens|]);
    }
  }

  lemma AllArgumentsSnoc(args: seq<string>, a: string)
    requires AllArguments(args) && Trim(a) == a
    requires Open(args + [a]) ==> !IsSwitch(a)
    ensures AllArguments(args + [a])
  {
    var next := args + [a];
    forall k | 0 <= k < |next| ensures !ReadAsSwitch(next, k) && Trim(next[k]) == next[k] {
      if k < |args| {
        assert next[k] == args[k] && next[..k + 1] == args[..k + 1];
        assert !ReadAsSwitch(args, k);
      } else {
        assert next[..k + 1] == next;
      }
    }
  }

  /** What has once been read as arguments stays that. */
  lemma {:induction false} ArgumentsStay(tokens: seq<string>)
    ensures AllArguments(Arguments(tokens))
    ensures Open(Arguments(tokens)) <==> Open(tokens)
  {
    if tokens != [] {
      var n := |tokens| - 1;
      var a := Trim(tokens[n]);
      ArgumentsStay(tokens[..n]);
      assert tokens == tokens[..n] + [tokens[n]] && tokens[..n + 1] == tokens;
      TrimSpec(tokens[n]);
      TrimSpec(a);
      OpenSnoc(tokens[..n], tokens[n]);
      if ReadAsSwitch(tokens, n) {
        assert Arguments(tokens) == Arguments(tokens[..n]);
      } else {
        OpenSnoc(Arguments(tokens[..n]), a);
        AllArgumentsSnoc(Arguments(tokens[..n]), a);
      }
    }
  }

  /** How a further token is parsed. */
  lemma ParseSnoc(tokens: seq<string>, t: string)
    ensures var isSwitch := Open(tokens + [t]) && IsSwitch(Trim(t));
            && Switches(tokens + [t]) == Switches(tokens) + (if isSwitch then [Normal(Trim(t))] else [])
            && Arguments(tokens + [t]) == Arguments(tokens) + (if isSwitch then [] else [Trim(t)])
  {
    var next := tokens + [t];
    assert next[..|tokens|] == tokens && next[..|tokens| + 1] == next;
  }

  /** What the tokens are parsed as. */
  ghost predicate ParsedAs(tokens: seq<string>, switches: seq<string>, args: seq<string>) {
    Switches(tokens) == switches && Arguments(tokens) == args
  }

  lemma ParseSwitch(tokens: seq<string>, switches: seq<string>, t: string)
    requires ParsedAs(tokens, switches, []) && Open(tokens) && Settles(t)
    ensures ParsedAs(tokens + [t], switches + [t], []) && Open(tokens + [t])
  {
    OpenSnoc(tokens, t);
    ParseSnoc(tokens, t);
  }

  lemma {:induction false} ParseSwitches(switches: seq<string>)
    requires AllSettle(switches)
    ensures ParsedAs(switches, switches, []) && Open(switches)
  {
    if switches != [] {
      var n := |switches| - 1;
      assert switches[..n] + [switches[n]] == switches;
      SettleSnoc(switches[..n], switches[n]);
      ParseSwitches(switches[..n]);
      ParseSwitch(switches[..n], switches[..n], switches[n]);
    }
  }

  lemma AllArgumentsPrefix(args: seq<string>, n: nat)
    requires AllArguments(args) && n <= |args|
    ensures AllArguments(args[..n])
  {
    forall k | 0 <= k < n ensures !ReadAsSwitch(args[..n], k) && Trim(args[..n][k]) == args[..n][k] {
      assert args[..n][k] == args[k] && args[..n][..k + 1] == args[..k + 1];
      assert !ReadAsSwitch(args, k);
    }
  }

  lemma OpenSuffix(front: seq<string>, back: seq<string>)
    requires Open(front + back)
    ensures Open(back)
  {
    forall k | 0 <= k < |back| ensures !Terminates(back[k]) {
      assert (front + back)[|front| + k] == back[k];
    }
  }

  lemma LastStays(switches: seq<string>, args: seq<string>)
    requires AllArguments(args) && args != []
    ensures Trim(args[|args| - 1]) == args[|args| - 1]
    ensures !(Open(switches + args) && IsSwitch(Trim(args[|args| - 1])))
  {
    assert !ReadAsSwitch(args, |args| - 1) && args[..|args|] == args;
    if Open(switches + args) {
      OpenSuffix(switches, args);
    }
  }

  lemma ParseArgument(tokens: seq<string>, switches: seq<string>, args: seq<string>, t: string)
    requires ParsedAs(tokens, switches, args)
    requires Trim(t) == t && !(Open(tokens + [t]) && IsSwitch(t))
    ensures ParsedAs(tokens + [t], switches, args + [t])
  {
    ParseSnoc(tokens, t);
  }

  lemma {:induction false} ParseBoth(switches: seq<string>, args: seq<string>)
    requires AllSettle(switches) && AllArguments(args)
    ensures ParsedAs(switches + args, switches, args)
  {
    if args == [] {
      ParseSwitches(switches);
      assert switches + [] == switches;
    } else {
      var n := |args| - 1;
      AllArgumentsPrefix(args, n);
      ParseBoth(switches, args[..n]);
      LastStays(switches, args);
      assert args[..n] + [args[n]] == args;
      assert switches + args[..n] + [args[n]] == switches + args;
      ParseArgument(switches + args[..n], switches, args[..n], args[n]);
    }
  }

  /** A switch as it has been put down that does not settle. */
  predicate Unsettled(s: string) {
    IsSwitch(s) && Normal(s) == s && NoEquals(s) && !Settles(s)
  }

  /** A switch that does not settle is read differently the next time, or not as a switch at all. */
  lemma ParseUnsettled(front: seq<string>, s: string, tokens: seq<string>)
    requires AllSettle(front) && Unsettled(s)
    requires |front| < |tokens| && tokens[..|front|] == front && tokens[..|front| + 1] == front + [s]
    ensures |Switches(tokens)| > |front| ==> Switches(tokens)[|front|] != s
  {
    ParseSwitches(front);
    if Terminates(s) {
      assert tokens[|front|] == (front + [s])[|front|];
      ClosedAfter(tokens, |front|);
    } else {
      UnsettledDiffers(s);
      DiffersAt(front, s, tokens);
    }
  }

  lemma DiffersAt(front: seq<string>, s: string, tokens: seq<string>)
    requires ParsedAs(front, front, []) && Open(front)
    requires !Terminates(s) && IsSwitch(Trim(s)) && Normal(Trim(s)) != s
    requires |front| < |tokens| && tokens[..|front| + 1] == front + [s]
    ensures |Switches(tokens)| > |front| && Switches(tokens)[|front|] != s
  {
    OpenSnoc(front, s);
    ParseSnoc(front, s);
    SwitchesOfPrefix(tokens, |front| + 1);
  }

  lemma UnsettledDiffers(s: string)
    requires Unsettled(s) && !Terminates(s)
    ensures IsSwitch(Trim(s)) && Normal(Trim(s)) != s
  {
    TrimmedSwitch(s);
  }

  lemma TrimmedSwitch(s: string)
    requires IsSwitch(s) && NoEquals(s)
    ensures Trim(s) <= s && IsSwitch(Trim(s)) && Normal(Trim(s)) == Trim(s)
  {
    assert s[0] == '-' && TrimLeft(s) == s;
    TrimRightSpec(s);
    StillDash(s);
    var t := Trim(s);
    EqualsAt(t, |t|);
    NormalIs(t);
  }

  lemma {:induction false} StillDash(s: string)
    requires s != "" && s[0] == '-'
    ensures TrimRight(s) != "" && TrimRight(s)[0] == '-'
  {
    if IsWhitespace(s[|s| - 1]) {
      StillDash(s[..|s| - 1]);
    }
  }

  lemma {:induction false} ClosedAfter(tokens: seq<string>, r: nat)
    requires r < |tokens| && Terminates(tokens[r])
    ensures Switches(tokens) == Switches(tokens[..r])
  {
    var n := |tokens| - 1;
    assert tokens[..n + 1] == tokens;
    assert !Open(tokens);
    if r < n {
      assert tokens[..n][r] == tokens[r] && tokens[..n][..r] == tokens[..r];
      ClosedAfter(tokens[..n], r);
    }
  }

  /** No token that is read as a switch loses its "=" with consequences. */
  ghost predicate Clean(tokens: seq<string>) {
    forall i {:trigger tokens[i]} :: 0 <= i < |tokens| && ReadAsSwitch(tokens, i) ==> !LosesEquals(Trim(tokens[i]))
  }

  ghost predicate AllNormal(switches: seq<string>) {
    forall k {:trigger switches[k]} :: 0 <= k < |switches| ==>
      IsSwitch(switches[k]) && Normal(switches[k]) == switches[k] && (!Settles(switches[k]) ==> NoEquals(switches[k]))
  }

  lemma {:induction false} SwitchesSettle(tokens: seq<string>)
    ensures AllNormal(Switches(tokens))
    ensures AllSettle(Switches(tokens)) <==> Clean(tokens)
  {
    if tokens != [] {
      var n := |tokens| - 1;
      var before, t := Switches(tokens[..n]), Trim(tokens[n]);
      SwitchesSettle(tokens[..n]);
      assert tokens[..n + 1] == tokens;
      CleanSnoc(tokens);
      if ReadAsSwitch(tokens, n) {
        TrimSpec(tokens[n]);
        assert !Terminates(tokens[n]);
        NormalSettles(t);
        SettleSnoc(before, Normal(t));
        assert Switches(tokens) == before + [Normal(t)];
      } else {
        assert Switches(tokens) == before;
      }
    }
  }

  lemma CleanSnoc(tokens: seq<string>)
    requires tokens != []
    ensures var n := |tokens| - 1;
            Clean(tokens) <==> Clean(tokens[..n]) && (ReadAsSwitch(tokens, n) ==> !LosesEquals(Trim(tokens[n])))
  {
    var n := |tokens| - 1;
    forall i | 0 <= i < n ensures ReadAsSwitch(tokens[..n], i) <==> ReadAsSwitch(tokens, i) {
      assert tokens[..n][..i + 1] == tokens[..i + 1] && tokens[..n][i] == tokens[i];
    }
    if Clean(tokens) {
      forall i | 0 <= i < n && ReadAsSwitch(tokens[..n], i) ensures !LosesEquals(Trim(tokens[..n][i])) {
        assert tokens[..n][i] == tokens[i];
      }
    }
    if Clean(tokens[..n]) {
      forall i | 0 <= i < n && ReadAsSwitch(tokens, i) ensures !LosesEquals(Trim(tokens[i])) {
        assert tokens[..n][i] == tokens[i];
      }
    }
  }

  lemma {:induction false} FirstUnsettled(switches: seq<string>) returns (r: nat)
    requires !AllSettle(switches)
    ensures r < |switches| && AllSettle(switches[..r]) && !Settles(switches[r])
  {
    var n := |switches| - 1;
    assert switches == switches[..n] + [switches[n]];
    SettleSnoc(switches[..n], switches[n]);
    if AllSettle(switches[..n]) {
      r := n;
    } else {
      r := FirstUnsettled(switches[..n]);
      assert switches[..n][..r] == switches[..r];
    }
  }

  lemma PrefixOfSum<T>(a: seq<T>, b: seq<T>, r: nat)
    requires r < |a|
    ensures (a + b)[..r] == a[..r] && (a + b)[..r + 1] == a[..r] + [a[r]]
  {
  }

  lemma UnsettledAt(switches: seq<string>, r: nat)
    requires AllNormal(switches) && r < |switches| && !Settles(switches[r])
    ensures Unsettled(switches[r])
  {
  }

  lemma UnsettledAgain(switches: seq<string>, args: seq<string>, r: nat)
    requires r < |switches| && AllSettle(switches[..r]) && Unsettled(switches[r])
    ensures Switches(switches + args) != switches
  {
    PrefixOfSum(switches, args, r);
    ParseUnsettled(switches[..r], switches[r], switches + args);
  }

  /**
   Parsing what has been parsed changes nothing, exactly when no switch is a "--" or a name ending in
   whitespace with a bare "=" behind it.
   */
  lemma ParseAgain(tokens: seq<string>)
    ensures var again := Switches(tokens) + Arguments(tokens);
            (Switches(again) == Switches(tokens) && Arguments(again) == Arguments(tokens)) <==> Clean(tokens)
  {
    SwitchesSettle(tokens);
    ArgumentsStay(tokens);
    if AllSettle(Switches(tokens)) {
      ParseBoth(Switches(tokens), Arguments(tokens));
    } else {
      var r := FirstUnsettled(Switches(tokens));
      UnsettledAt(Switches(tokens), r);
      UnsettledAgain(Switches(tokens), Arguments(tokens), r);
    }
  }

  lemma ParseOne(t: string)
    ensures var isSwitch := !Terminates(t) && IsSwitch(Trim(t));
            && Switches([t]) == (if isSwitch then [Normal(Trim(t))] else [])
            && Arguments([t]) == (if isSwitch then [] else [Trim(t)])
  {
    OpenSnoc([], t);
    ParseSnoc([], t);
    assert [] + [t] == [t];
  }

  lemma NormalOfBareEquals(t: string)
    requires IsSwitch(t) && EqualsPosition(t) == |t| - 1 && IsTrimmed(t) && |t| == 3
    ensures Switches([t]) == [t[..2]] && Arguments([t]) == []
  {
    ParseOne(t);
    TrimSpec(t);
    NormalIs(t);
  }

  /** The switch "--=" is put down as "--", which the next parse takes for a terminator. */
  lemma BareEqualsReparsed()
    ensures Switches(["--="]) == ["--"] && Arguments(["--="]) == []
    ensures Switches(["--"]) == [] && Arguments(["--"]) == ["--"]
  {
    EqualsAt("--=", 2);
    NormalOfBareEquals("--=");
    assert "--="[..2] == "--";
    TrimSpec("--");
    ParseOne("--");
  }
}
