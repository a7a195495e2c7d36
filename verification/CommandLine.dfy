/**
 The CommandLine class on POSIX, whose methods update the vector of tokens, the index of the switches
 and the place where the arguments begin.
 */
module CommandLine {
  import opened CommandLineParsing

  /** The tokens behind the program. */
  function Rest(argv: seq<string>): seq<string> {
    if argv == [] then [] else argv[1..]
  }

  function Program(argv: seq<string>): string {
    if argv == [] then "" else Trim(argv[0])
  }

  lemma ProgramIsTrimmed(args: seq<string>)
    ensures Trim(if args == [] then "" else args[0]) == Program(args)
  {
    TrimSpec("");
  }

  /** A command line that has been initialised from a vector and not changed since. */
  datatype Parsed = Parsed(argv: seq<string>, beginArgs: nat, switches: SwitchMap)

  ghost function FromArgv(argv: seq<string>): Parsed {
    var switches := Switches(Rest(argv));
    Parsed([Program(argv)] + switches + Arguments(Rest(argv)), 1 + |switches|, Index(switches))
  }

  /** n is the place of the first terminator. */
  ghost predicate FirstTerminator(args: seq<string>, n: nat) {
    n < |args| && args[n] == "--" && forall k :: 0 <= k < n ==> args[k] != "--"
  }

  /** `rest` is `args` without its entry n, the others in their order. */
  ghost predicate LeavesOut(args: seq<string>, n: nat, rest: seq<string>)
    requires n < |args|
  {
    && |rest| == |args| - 1
    && (forall k :: 0 <= k < n ==> rest[k] == args[k])
    && (forall k :: n <= k < |rest| ==> rest[k] == args[k + 1])
  }

  lemma SplitSame<T>(a: seq<T>, b: seq<T>, c: seq<T>, d: seq<T>)
    requires |a| == |c| && a + b == c + d
    ensures a == c && b == d
  {
    assert a == (a + b)[..|a|] && c == (c + d)[..|c|];
    assert b == (a + b)[|a|..] && d == (c + d)[|c|..];
  }

  /**
   Initialising a fresh command line from the vector of another gives the same vector, the same division
   into switches and arguments and the same index, exactly when the original vector is clean.
   */
  lemma InitIsIdempotent(argv: seq<string>)
    ensures FromArgv(FromArgv(argv).argv) == FromArgv(argv) <==> Clean(Rest(argv))
  {
    var first := FromArgv(argv);
    var s, a := Switches(Rest(argv)), Arguments(Rest(argv));
    RestOf(Program(argv), s, a);
    ProgramTwice(argv);
    ParseAgain(Rest(argv));
    SameParse(Program(argv), Switches(s + a), Arguments(s + a), s, a);
  }

  lemma RestOf(program: string, s: seq<string>, a: seq<string>)
    ensures Rest([program] + s + a) == s + a
  {
    assert [program] + s + a == [program] + (s + a);
  }

  lemma ProgramTwice(argv: seq<string>)
    ensures Program(FromArgv(argv).argv) == Program(argv)
  {
    TrimSpec("");
    if argv != [] {
      TrimSpec(argv[0]);
      TrimSpec(Trim(argv[0]));
    }
  }

  lemma SameParse(program: string, s: seq<string>, a: seq<string>, s': seq<string>, a': seq<string>)
    ensures Parsed([program] + s + a, 1 + |s|, Index(s)) == Parsed([program] + s' + a', 1 + |s'|, Index(s'))
       <==> s == s' && a == a'
  {
    if |s| == |s'| && [program] + s + a == [program] + s' + a' {
      SplitSame([program] + s, a, [program] + s', a');
      SplitSame([program], s, [program], s');
    }
  }

  lemma IndexOntoSnoc(before: SwitchMap, tokens: seq<string>, token: string)
    ensures IndexOnto(before, tokens + [token])
         == IndexOnto(before, tokens)[Key(SwitchString(token)) := SwitchValue(token)]
  {
    assert (tokens + [token])[..|tokens|] == tokens;
  }

  lemma {:induction false} IndexOntoSum(before: SwitchMap, a: seq<string>, b: seq<string>)
    ensures IndexOnto(before, a + b) == IndexOnto(IndexOnto(before, a), b)
  {
    if b == [] {
      assert a + b == a;
    } else {
      var n := |b| - 1;
      IndexOntoSum(before, a, b[..n]);
      assert a + b == a + b[..n] + [b[n]];
      IndexOntoSnoc(before, a + b[..n], b[n]);
    }
  }

  /** No key of an index has an "=" in it. */
  lemma IndexKeysHaveNoEquals(tokens: seq<string>, key: string)
    requires key in Index(tokens)
    ensures NoEquals(key)
  {
    var i := IndexIsLast(tokens, key);
    KeyWithoutEquals(tokens[i]);
  }

  /** Recording a switch and its token leaves index and vector in agreement exactly if the name has no "=". */
  lemma IndexAgrees(tokens: seq<string>, name: string, value: string)
    ensures Index(tokens)[Key(name) := value] == Index(tokens + [Combined(name, value)]) <==> NoEquals(name)
  {
    var token := Combined(name, value);
    IndexOntoSnoc(map[], tokens, token);
    TokenTellsSwitch(name, value);
    if !NoEquals(name) {
      KeyWithEquals(name);
      var m := Index(tokens)[Key(name) := value];
      if m == Index(tokens + [token]) {
        assert Key(name) in m;
        IndexKeysHaveNoEquals(tokens + [token], Key(name));
      }
    }
  }

  // ---------------------------------------------------------------------------------------
  // Copying switches
  // ---------------------------------------------------------------------------------------

  /** The switches among `names` that the source has, one after the other. */
  function CopiedTokens(source: SwitchMap, names: seq<string>): seq<string> {
    if names == [] then []
    else
      var n := |names| - 1;
      CopiedTokens(source, names[..n]) + if names[n] in source then [Combined(names[n], source[names[n]])] else []
  }

  function CopiedOnto(before: SwitchMap, source: SwitchMap, names: seq<string>): SwitchMap {
    if names == [] then before
    else
      var n := |names| - 1;
      var m := CopiedOnto(before, source, names[..n]);
      if names[n] in source then m[Key(names[n]) := source[names[n]]] else m
  }

  /** What copying promises about a key: it has the source's value if it is named there, and else it stays. */
  ghost predicate CopiedRight(before: SwitchMap, source: SwitchMap, names: seq<string>, key: string) {
    var after := CopiedOnto(before, source, names);
    if key in source && key in names then key in after && after[key] == source[key]
    else (key in after <==> key in before) && (key in before ==> after[key] == before[key])
  }

  ghost predicate Exact(before: SwitchMap, source: SwitchMap, names: seq<string>) {
    forall key :: CopiedRight(before, source, names, key)
  }

  /** No name that the source has begins with a dash, so that none is taken for its own prefix and key. */
  ghost predicate NoneDashed(source: SwitchMap, names: seq<string>) {
    forall i {:trigger names[i]} :: 0 <= i < |names| && names[i] in source ==> !IsSwitch(names[i])
  }

  lemma {:induction false} UndashedCopied(before: SwitchMap, source: SwitchMap, names: seq<string>, key: string)
    requires NoneDashed(source, names)
    ensures CopiedRight(before, source, names, key)
  {
    if names != [] {
      var n := |names| - 1;
      assert names == names[..n] + [names[n]];
      UndashedCopied(before, source, names[..n], key);
      assert names[n] in source ==> Key(names[n]) == names[n];
    }
  }

  lemma {:induction false} KeyOfCopied(source: SwitchMap, names: seq<string>, key: string) returns (i: nat)
    requires key in CopiedOnto(map[], source, names)
    ensures i < |names| && names[i] in source && Key(names[i]) == key
  {
    var n := |names| - 1;
    if names[n] in source && Key(names[n]) == key {
      i := n;
    } else {
      i := KeyOfCopied(source, names[..n], key);
    }
  }

  function Longest(names: seq<string>): (n: nat)
    ensures forall i :: 0 <= i < |names| ==> |names[i]| <= n
  {
    if names == [] then 0
    else
      var m, last := Longest(names[..|names| - 1]), |names[|names| - 1]|;
      if m < last then last else m
  }

  /** A dashed name can only come out as the key of a longer one, and there is a longest. */
  lemma {:induction false} ExactHasNoDash(source: SwitchMap, names: seq<string>, i: nat)
    requires Exact(map[], source, names)
    requires i < |names| && names[i] in source
    ensures !IsSwitch(names[i])
    decreases Longest(names) - |names[i]|
  {
    if IsSwitch(names[i]) {
      assert CopiedRight(map[], source, names, names[i]);
      var j := KeyOfCopied(source, names, names[i]);
      ExactHasNoDash(source, names, j);
    }
  }

  /**
   Copying is right, whatever was there before, exactly when no copied name begins with a dash; onto an empty
   index it is already wrong otherwise.
   */
  lemma CopiesExactly(source: SwitchMap, names: seq<string>)
    ensures (forall before :: Exact(before, source, names)) <==> NoneDashed(source, names)
    ensures Exact(map[], source, names) <==> NoneDashed(source, names)
  {
    if NoneDashed(source, names) {
      forall before, key ensures CopiedRight(before, source, names, key) {
        UndashedCopied(before, source, names, key);
      }
    } else {
      var i :| 0 <= i < |names| && names[i] in source && IsSwitch(names[i]);
      if Exact(map[], source, names) {
        ExactHasNoDash(source, names, i);
      }
    }
  }

  /** A key that looks like a switch is copied to another key: the token "---x" has the key "-x". */
  lemma DashedKeyMoves(value: string)
    ensures Key(SwitchString("---x")) == "-x" && Key("-x") == "x"
    ensures CopiedOnto(map[], map["-x" := value], ["-x"]) == map["x" := value]
  {
    EqualsAt("---x", 4);
    assert "---x"[..4] == "---x";
    assert Key("---x") == "-x";
    assert ["-x"][..0] == [];
  }

  /** What copying from itself makes of an index: each copy sees those before it. */
  function CopiedWithin(own: SwitchMap, names: seq<string>): SwitchMap {
    if names == [] then own
    else
      var n := |names| - 1;
      var m := CopiedWithin(own, names[..n]);
      if names[n] in m then m[Key(names[n]) := m[names[n]]] else m
  }

  function TokensWithin(own: SwitchMap, names: seq<string>): seq<string> {
    if names == [] then []
    else
      var n := |names| - 1;
      var m := CopiedWithin(own, names[..n]);
      TokensWithin(own, names[..n]) + if names[n] in m then [Combined(names[n], m[names[n]])] else []
  }

  /** Each switch that is named has the value that the key it is copied to has. */
  ghost predicate AgreesWithin(own: SwitchMap, names: seq<string>) {
    forall i {:trigger names[i]} :: 0 <= i < |names| && names[i] in own ==>
      Key(names[i]) in own && own[Key(names[i])] == own[names[i]]
  }

  lemma {:induction false} AgreeingKept(own: SwitchMap, names: seq<string>)
    requires AgreesWithin(own, names)
    ensures CopiedWithin(own, names) == own && TokensWithin(own, names) == CopiedTokens(own, names)
  {
    if names != [] {
      var n := |names| - 1;
      assert names == names[..n] + [names[n]];
      AgreeingKept(own, names[..n]);
    }
  }

  lemma KeptAgrees(own: SwitchMap, names: seq<string>, i: nat)
    requires i < |names| && names[i] in own
    requires CopiedWithin(own, names[..i]) == own && CopiedWithin(own, names[..i + 1]) == own
    ensures Key(names[i]) in own && own[Key(names[i])] == own[names[i]]
  {
    assert names[..i + 1][..i] == names[..i];
  }

  /**
   Copied from itself, an index stays as it is throughout exactly when each named switch has the value of the key it
   is copied to, as switches without a dash have; the tokens are then those of a copy from another command line.
   */
  lemma WithinExactly(own: SwitchMap, names: seq<string>)
    ensures (forall n: nat :: n <= |names| ==> CopiedWithin(own, names[..n]) == own) <==> AgreesWithin(own, names)
    ensures AgreesWithin(own, names) ==> TokensWithin(own, names) == CopiedTokens(own, names)
    ensures NoneDashed(own, names) ==> AgreesWithin(own, names)
  {
    if AgreesWithin(own, names) {
      AgreeingKept(own, names);
      forall n: nat | n <= |names| ensures CopiedWithin(own, names[..n]) == own {
        assert AgreesWithin(own, names[..n]) by {
          forall i | 0 <= i < n && names[..n][i] in own
            ensures Key(names[..n][i]) in own && own[Key(names[..n][i])] == own[names[..n][i]]
          {
            assert names[..n][i] == names[i];
          }
        }
        AgreeingKept(own, names[..n]);
      }
    }
    if forall n: nat :: n <= |names| ==> CopiedWithin(own, names[..n]) == own {
      forall i | 0 <= i < |names| && names[i] in own
        ensures Key(names[i]) in own && own[Key(names[i])] == own[names[i]]
      {
        KeptAgrees(own, names, i);
      }
    }
  }

  function TokensCopied(itself: bool, before: SwitchMap, source: SwitchMap, names: seq<string>): seq<string> {
    if itself then TokensWithin(before, names) else CopiedTokens(source, names)
  }

  function SwitchesCopied(itself: bool, before: SwitchMap, source: SwitchMap, names: seq<string>): SwitchMap {
    if itself then CopiedWithin(before, names) else CopiedOnto(before, source, names)
  }

  /** One name more, from itself or from another. */
  lemma CopiedNext(itself: bool, tokens: seq<string>, before: SwitchMap, source: SwitchMap, names: seq<string>, i: nat)
    requires i < |names|
    ensures var now, name := SwitchesCopied(itself, before, source, names[..i]), names[i];
            var m := if itself then now else source;
            && (tokens + TokensCopied(itself, before, source, names[..i + 1])
                == tokens + TokensCopied(itself, before, source, names[..i])
                   + if name in m then [Combined(name, m[name])] else [])
            && (SwitchesCopied(itself, before, source, names[..i + 1])
                == if name in m then now[Key(name) := m[name]] else now)
  {
    assert names[..i + 1][..i] == names[..i];
  }

  /** A command line taken apart; `valid` says that its index was that of its switches. */
  datatype Parts = Parts(program: string, switches: seq<string>, arguments: seq<string>, index: SwitchMap, valid: bool)

  ghost predicate AllSwitches(tokens: seq<string>) {
    forall i {:trigger tokens[i]} :: 0 <= i < |tokens| ==> IsSwitch(tokens[i])
  }

  lemma FromParts(argv: seq<string>, begin: nat, args: seq<string>)
    requires 1 <= begin <= |argv| && argv[0] == Program(args)
    requires argv[1..begin] == Switches(Rest(args)) && argv[begin..] == Arguments(Rest(args))
    ensures argv == FromArgv(args).argv && begin == FromArgv(args).beginArgs
  {
    ThreeParts(argv, begin);
  }

  lemma ThreeParts(argv: seq<string>, begin: nat)
    requires 1 <= begin <= |argv|
    ensures argv == [argv[0]] + argv[1..begin] + argv[begin..]
  {
  }

  lemma RestNext(args: seq<string>, i: nat)
    requires 1 <= i < |args|
    ensures Rest(args)[..i] == Rest(args)[..i - 1] + [args[i]]
  {
  }

  /** A further token, as the loop of AppendSwitchesAndArguments needs it. */
  lemma TokenAppended(s: seq<string>, a: seq<string>, index: SwitchMap, tokens: seq<string>, t: string,
                      switches: SwitchMap)
    requires switches == IndexOnto(index, Switches(tokens))
    ensures var isSwitch := Open(tokens) && !Terminates(t) && IsSwitch(Trim(t));
            && (Open(tokens + [t]) <==> Open(tokens) && !Terminates(t))
            && s + Switches(tokens + [t]) == s + Switches(tokens) + (if isSwitch then [Normal(Trim(t))] else [])
            && a + Arguments(tokens + [t]) == a + Arguments(tokens) + (if isSwitch then [] else [Trim(t)])
            && IndexOnto(index, Switches(tokens + [t]))
               == if isSwitch then IndexOnto(switches, [Normal(Trim(t))]) else switches
  {
    OpenSnoc(tokens, t);
    ParseSnoc(tokens, t);
    var isSwitch := Open(tokens + [t]) && IsSwitch(Trim(t));
    var more := if isSwitch then [Normal(Trim(t))] else [];
    assert s + (Switches(tokens) + more) == s + Switches(tokens) + more;
    var moreArgs := if isSwitch then [] else [Trim(t)];
    assert a + (Arguments(tokens) + moreArgs) == a + Arguments(tokens) + moreArgs;
    IndexOntoSum(index, Switches(tokens), more);
  }

  // ---------------------------------------------------------------------------------------
  // The class
  // ---------------------------------------------------------------------------------------

  class CommandLine {
    /** The program, the switches, the arguments. */
    var argv: seq<string>
    var switches: SwitchMap
    /** Where the arguments begin. */
    var beginArgs: nat

    ghost predicate Shaped()
      reads this
    {
      1 <= beginArgs <= |argv|
    }

    ghost function SwitchTokens(): seq<string>
      requires Shaped()
      reads this
    {
      argv[1..beginArgs]
    }

    ghost function ArgumentTokens(): seq<string>
      requires Shaped()
      reads this
    {
      argv[beginArgs..]
    }

    /** The index is that of the switches in the vector. */
    ghost predicate Valid()
      reads this
    {
      Shaped() && AllSwitches(SwitchTokens()) && switches == Index(SwitchTokens())
    }

    constructor NoProgram()
      ensures Valid() && argv == [""] && beginArgs == 1
    {
      argv, beginArgs, switches := [""], 1, map[];
    }

    constructor WithProgram(program: string)
      ensures Valid() && argv == [Trim(program)] && beginArgs == 1
    {
      argv, beginArgs, switches := [""], 1, map[];
      new;
      SetProgram(program);
    }


    method SetProgram(program: string)
      requires Shaped()
      modifies this`argv
      ensures argv == [Trim(program)] + old(argv)[1..]
      ensures Shaped() && SwitchTokens() == old(SwitchTokens()) && ArgumentTokens() == old(ArgumentTokens())
      ensures old(Valid()) ==> Valid()
    {
      argv := [Trim(program)] + argv[1..];
    }

    /** The switch goes behind the switches; afterwards the index agrees exactly if the name has no "=". */
    method AppendSwitchNative(name: string, value: string)
      requires Shaped()
      modifies this
      ensures Shaped() && argv[0] == old(argv[0]) && ArgumentTokens() == old(ArgumentTokens())
      ensures SwitchTokens() == old(SwitchTokens()) + [Combined(name, value)]
      ensures switches == old(switches)[Key(name) := value]
      ensures old(Valid()) ==> (Valid() <==> NoEquals(name))
    {
      ghost var before := SwitchTokens();
      var prefixLength := GetSwitchPrefixLength(name);
      switches := switches[name[prefixLength..] := value];
      var combined := name;
      if prefixLength == 0 {
        combined := "--" + combined;
      }
      if value != "" {
        combined := combined + "=" + value;
      }
      assert combined == Combined(name, value);
      argv := argv[..beginArgs] + [combined] + argv[beginArgs..];
      beginArgs := beginArgs + 1;
      assert SwitchTokens() == before + [combined];
      IndexAgrees(before, name, value);
      PrefixOfCombined(name, value);
    }

    method AppendArgNative(value: string)
      requires Shaped()
      modifies this`argv
      ensures Shaped() && argv[0] == old(argv[0]) && SwitchTokens() == old(SwitchTokens())
      ensures ArgumentTokens() == old(ArgumentTokens()) + [value]
      ensures old(Valid()) ==> Valid()
    {
      argv := argv + [value];
    }

    /** One turn of the loop below. */
    method AppendToken(token: string, parsing: bool) returns (parseSwitches: bool)
      requires Shaped()
      modifies this
      ensures parseSwitches == (parsing && !Terminates(token))
      ensures Shaped() && argv[0] == old(argv[0]) && (old(Valid()) ==> Valid())
      ensures if parseSwitches && IsSwitch(Trim(token)) then
                && SwitchTokens() == old(SwitchTokens()) + [Normal(Trim(token))]
                && ArgumentTokens() == old(ArgumentTokens())
                && switches == IndexOnto(old(switches), [Normal(Trim(token))])
              else
                && SwitchTokens() == old(SwitchTokens())
                && ArgumentTokens() == old(ArgumentTokens()) + [Trim(token)]
                && switches == old(switches)
    {
      var arg := Trim(token);
      parseSwitches := parsing && arg != SWITCH_TERMINATOR;
      if parseSwitches && IsSwitch(arg) {
        EqualsSpec(arg, 0);
        assert NoEquals(SwitchString(arg));
        PrefixOfCombined(SwitchString(arg), SwitchValue(arg));
        IndexOntoSnoc(switches, [], Normal(arg));
        assert [] + [Normal(arg)] == [Normal(arg)];
        AppendSwitchNative(SwitchString(arg), SwitchValue(arg));
      } else {
        AppendArgNative(arg);
      }
    }

    /** What a command line in the state `was` comes to when the tokens have been appended. */
    ghost predicate Holds(was: Parts, tokens: seq<string>, parsing: bool)
      reads this
    {
      var more := Switches(tokens);
      && Shaped() && argv[0] == was.program
      && SwitchTokens() == was.switches + more
      && ArgumentTokens() == was.arguments + Arguments(tokens)
      && switches == IndexOnto(was.index, more)
      && (was.valid ==> Valid())
      && (parsing <==> Open(tokens))
    }

    ghost function AsParts(): Parts
      requires Shaped()
      reads this
    {
      Parts(argv[0], SwitchTokens(), ArgumentTokens(), switches, Valid())
    }

    lemma NothingAppended()
      requires Shaped()
      ensures Holds(AsParts(), [], true)
    {
      assert SwitchTokens() + [] == SwitchTokens() && ArgumentTokens() + [] == ArgumentTokens();
    }

    method AppendNext(token: string, parsing: bool, ghost was: Parts, ghost tokens: seq<string>)
      returns (parseSwitches: bool)
      requires Holds(was, tokens, parsing)
      modifies this
      ensures Holds(was, tokens + [token], parseSwitches)
    {
      TokenAppended(was.switches, was.arguments, was.index, tokens, token, switches);
      parseSwitches := AppendToken(token, parsing);
    }

    /** What has been read from the tokens is appended, the switches to the switches. */
    method AppendSwitchesAndArguments(args: seq<string>)
      requires Shaped()
      modifies this
      ensures Shaped() && argv[0] == old(argv[0]) && (old(Valid()) ==> Valid())
      ensures SwitchTokens() == old(SwitchTokens()) + Switches(Rest(args))
      ensures ArgumentTokens() == old(ArgumentTokens()) + Arguments(Rest(args))
      ensures switches == IndexOnto(old(switches), Switches(Rest(args)))
    {
      NothingAppended();
      var parseSwitches := AppendEach(args, AsParts());
    }

    /** The loop. */
    method AppendEach(args: seq<string>, ghost was: Parts) returns (parseSwitches: bool)
      requires Holds(was, [], true)
      modifies this
      ensures Holds(was, Rest(args), parseSwitches)
    {
      ghost var rest := Rest(args);
      parseSwitches := true;
      var i := 1;
      assert rest[..0] == [];
      while i < |args|
        invariant 1 <= i <= |rest| + 1
        invariant Holds(was, rest[..i - 1], parseSwitches)
      {
        RestNext(args, i);
        parseSwitches := AppendNext(args[i], parseSwitches, was, rest[..i - 1]);
        i := i + 1;
      }
      assert rest[..i - 1] == rest;
    }

    /** A vector of the program only. */
    method Restart(program: string)
      modifies this`argv, this`beginArgs
      ensures Shaped() && argv[0] == Trim(program) && SwitchTokens() == [] && ArgumentTokens() == []
      ensures switches == map[] ==> Valid()
    {
      argv := [""];
      beginArgs := 1;
      SetProgram(program);
    }

    /** The index is not cleared first: on a used command line it keeps what it had. */
    method InitFromArgv(args: seq<string>)
      modifies this
      ensures argv == FromArgv(args).argv && beginArgs == FromArgv(args).beginArgs
      ensures switches == IndexOnto(old(switches), Switches(Rest(args)))
      ensures old(switches) == map[] ==> Valid() && Parsed(argv, beginArgs, switches) == FromArgv(args)
    {
      Restart(if args == [] then "" else args[0]);
      ProgramIsTrimmed(args);
      AppendSwitchesAndArguments(args);
      assert [] + Switches(Rest(args)) == Switches(Rest(args)) && [] + Arguments(Rest(args)) == Arguments(Rest(args));
      FromParts(argv, beginArgs, args);
    }

    constructor FromVector(args: seq<string>)
      ensures Valid() && Parsed(argv, beginArgs, switches) == FromArgv(args)
    {
      argv, beginArgs, switches := [""], 1, map[];
      new;
      InitFromArgv(args);
    }

    /** Appended to itself, a command line with anything behind the program would grow for ever. */
    method AppendArguments(other: CommandLine, includeProgram: bool)
      requires Shaped() && other.Shaped() && (other == this ==> |argv| == 1)
      modifies this
      ensures Shaped() && argv[0] == if includeProgram then Trim(old(other.argv[0])) else old(argv[0])
      ensures SwitchTokens() == old(SwitchTokens()) + Switches(old(other.argv[1..]))
      ensures ArgumentTokens() == old(ArgumentTokens()) + Arguments(old(other.argv[1..]))
      ensures switches == IndexOnto(old(switches), Switches(old(other.argv[1..])))
      ensures old(Valid()) ==> Valid()
    {
      if includeProgram {
        SetProgram(other.argv[0]);
      }
      assert other.argv[1..] == old(other.argv[1..]);
      AppendSwitchesAndArguments(other.argv);
    }

    method HasSwitch(key: string) returns (has: bool)
      requires Valid()
      ensures has <==> exists i :: 0 <= i < |SwitchTokens()| && Key(SwitchString(SwitchTokens()[i])) == key
    {
      has := key in switches;
      ghost var i := IndexIsLast(SwitchTokens(), key);
    }

    /** The value of the last switch with that key, or nothing. */
    method GetSwitchValueNative(key: string) returns (value: string, ghost last: nat)
      requires Valid()
      ensures key !in switches ==> value == ""
      ensures key in switches ==>
                && last < |SwitchTokens()| && Key(SwitchString(SwitchTokens()[last])) == key
                && IsLast(SwitchTokens(), last) && value == SwitchValue(SwitchTokens()[last])
    {
      last := IndexIsLast(SwitchTokens(), key);
      value := if key in switches then switches[key] else "";
    }

    /** One turn of the loop below. */
    method CopySwitch(source: CommandLine, name: string)
      requires Shaped() && source.Valid()
      modifies this
      ensures Shaped() && argv[0] == old(argv[0]) && ArgumentTokens() == old(ArgumentTokens())
      ensures var m := old(source.switches);
              if name in m then
                && SwitchTokens() == old(SwitchTokens()) + [Combined(name, m[name])]
                && switches == old(switches)[Key(name) := m[name]]
              else SwitchTokens() == old(SwitchTokens()) && switches == old(switches)
      ensures source.Valid() && (old(Valid()) ==> Valid())
    {
      if name in source.switches {
        IndexKeysHaveNoEquals(source.SwitchTokens(), name);
        AppendSwitchNative(name, source.switches[name]);
      }
    }

    method CopySwitchesFrom(source: CommandLine, names: seq<string>)
      requires Shaped() && source.Valid()
      modifies this
      ensures Shaped() && argv[0] == old(argv[0]) && ArgumentTokens() == old(ArgumentTokens())
      ensures source != this ==>
                && SwitchTokens() == old(SwitchTokens()) + CopiedTokens(source.switches, names)
                && switches == CopiedOnto(old(switches), source.switches, names)
      ensures source == this ==>
                && SwitchTokens() == old(SwitchTokens()) + TokensWithin(old(switches), names)
                && switches == CopiedWithin(old(switches), names)
      ensures old(Valid()) ==> Valid()
    {
      ghost var itself, tokens, before, copied := source == this, SwitchTokens(), switches, source.switches;
      var i := 0;
      assert names[..0] == [] && tokens + [] == tokens;
      while i < |names|
        invariant i <= |names| && Shaped() && argv[0] == old(argv[0]) && ArgumentTokens() == old(ArgumentTokens())
        invariant SwitchTokens() == tokens + TokensCopied(itself, before, copied, names[..i])
        invariant switches == SwitchesCopied(itself, before, copied, names[..i])
        invariant itself <==> source == this
        invariant !itself ==> source.switches == copied
        invariant source.Valid() && (old(Valid()) ==> Valid())
      {
        CopiedNext(itself, tokens, before, copied, names, i);
        CopySwitch(source, names[i]);
        i := i + 1;
      }
      assert names[..i] == names;
    }

    /** The arguments, but for the first terminator. */
    method GetArgs() returns (args: seq<string>)
      requires Shaped()
      ensures "--" !in ArgumentTokens() ==> args == ArgumentTokens()
      ensures forall n :: FirstTerminator(ArgumentTokens(), n) ==> LeavesOut(ArgumentTokens(), n, args)
    {
      args := argv[beginArgs..];
      var i := 0;
      while i < |args| && args[i] != SWITCH_TERMINATOR
        invariant 0 <= i <= |args| && args == ArgumentTokens()
        invariant forall k :: 0 <= k < i ==> args[k] != "--"
      {
        i := i + 1;
      }
      if i < |args| {
        args := args[..i] + args[i + 1..];
      }
    }
  }
}
