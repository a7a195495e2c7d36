/**
 Exactly which command lines can be printed on Windows and taken apart again.  Entries without a double quote
 in a switch name are taken apart one by one; the first with one never comes back.
 */
module CommandLineExactness {
  import opened CommandLineParsing
  import opened CommandLineQuotedNames
  import opened CommandLineWindows

  /** A switch name with a double quote is printed raw and can join entries. */
  predicate NoQuoteInName(arg: string, asSwitch: bool) {
    asSwitch ==> IsSwitchOnWindows(arg) && '"' !in SwitchString(arg)
  }

  /** What an entry alone is taken apart into. */
  function Entry(arg: string, asSwitch: bool): seq<string> {
    Tokenize(" " + Printed(arg, asSwitch))
  }

  function Entries(args: seq<string>): seq<seq<string>> {
    seq(|args|, i requires 0 <= i < |args| => Entry(args[i], AsSwitch(args, i)))
  }

  lemma {:induction false} JoinedGrow(parts: seq<seq<string>>, m: nat, n: nat)
    requires m <= n <= |parts|
    ensures Joined(parts, m) <= Joined(parts, n)
  {
    if m < n {
      JoinedGrow(parts, m, n - 1);
    }
  }

  /** Of the first n entries. */
  ghost predicate NoQuoteInNames(args: seq<string>, n: nat)
    requires n <= |args|
  {
    forall i {:trigger args[i]} :: 0 <= i < n ==> NoQuoteInName(args[i], AsSwitch(args, i))
  }

  // ---------------------------------------------------------------------------------------
  // Entry by entry
  // ---------------------------------------------------------------------------------------

  /** Between tokens nothing is left over. */
  predicate Tidy(s: Scan) {
    s.inToken || (s.current == "" && s.slashes == 0)
  }

  function Behind(done: seq<string>, s: Scan): Scan {
    s.(tokens := done + s.tokens)
  }

  lemma EndBehind(done: seq<string>, s: Scan)
    ensures EndToken(Behind(done, s)) == Behind(done, EndToken(s))
  {
    if s.inToken {
      assert done + s.tokens + [s.current + Slashes(s.slashes)] == done + (s.tokens + [s.current + Slashes(s.slashes)]);
    }
  }

  /** Tokens read before make no difference. */
  lemma {:induction false} ScanBehind(done: seq<string>, s: Scan, text: string)
    ensures ScanFrom(Behind(done, s), text) == Behind(done, ScanFrom(s, text))
    ensures Tidy(s) ==> Tidy(ScanFrom(s, text))
    decreases |text|
  {
    if text != "" {
      EndBehind(done, s);
      assert Next(Behind(done, s), text[0]) == Behind(done, Next(s, text[0]));
      ScanBehind(done, Next(s, text[0]), text[1..]);
    }
  }

  lemma {:induction false} NoQuoteKeeps(s: Scan, text: string)
    requires '"' !in text
    ensures ScanFrom(s, text).inQuotes == s.inQuotes
    decreases |text|
  {
    if text != "" {
      NoQuoteKeeps(Next(s, text[0]), text[1..]);
    }
  }

  lemma QuotedRests(s: Scan, arg: string)
    requires !s.inQuotes && s.slashes == 0
    ensures !ScanFrom(s, Quoted(arg)).inQuotes
  {
    if IsQuoted(arg) {
      QuotedIsRead(s, arg);
    } else {
      QuotedHasNoQuote(arg);
      NoQuoteKeeps(s, arg);
    }
  }

  lemma PrintedRests(s: Scan, arg: string, asSwitch: bool)
    requires !s.inQuotes && s.slashes == 0 && NoQuoteInName(arg, asSwitch)
    ensures !ScanFrom(s, Printed(arg, asSwitch)).inQuotes
  {
    if !asSwitch {
      QuotedRests(s, arg);
    } else {
      var name, value := SwitchString(arg), SwitchValue(arg);
      NoQuoteKeeps(s, name);
      if value == "" {
        assert name + "" == name;
      } else {
        var named := ScanFrom(s, name);
        ScanSum(s, name, "=" + Quoted(value));
        ScanSum(named, "=", Quoted(value));
        ScanOne(named, '=');
        QuotedRests(Next(named, '='), value);
      }
    }
  }

  lemma EntryAdds(s: Scan, done: seq<string>, arg: string, asSwitch: bool)
    requires HasRead(s, done) && NoQuoteInName(arg, asSwitch)
    ensures HasRead(ScanFrom(s, " " + Printed(arg, asSwitch)), done + Entry(arg, asSwitch))
  {
    var text := Printed(arg, asSwitch);
    assert (" " + text)[1..] == text;
    assert Behind(done, START) == Scan(done, "", false, false, 0) by {
      assert done + [] == done;
    }
    ScanBehind(done, START, text);
    PrintedRests(START, arg, asSwitch);
    EndBehind(done, ScanFrom(START, text));
  }

  lemma TextAdds(text: string, done: seq<string>, arg: string, asSwitch: bool)
    requires HasRead(ScanFrom(START, text), done) && NoQuoteInName(arg, asSwitch)
    ensures HasRead(ScanFrom(START, text + (" " + Printed(arg, asSwitch))), done + Entry(arg, asSwitch))
  {
    ScanSum(START, text, " " + Printed(arg, asSwitch));
    EntryAdds(ScanFrom(START, text), done, arg, asSwitch);
  }

  lemma TextIsEntries(args: seq<string>, n: nat)
    requires n <= |args| && NoQuoteInNames(args, n)
    ensures HasRead(ScanFrom(START, TextTo(Pieces(args), n)), Joined(Entries(args), n))
  {
    var p := (text, tokens) => HasRead(ScanFrom(START, text), tokens);
    forall text, done, i | 0 <= i < n && p(text, done) ensures p(text + Pieces(args)[i], done + Entries(args)[i]) {
      assert NoQuoteInName(args[i], AsSwitch(args, i));
      TextAdds(text, done, args[i], AsSwitch(args, i));
    }
    TextKeeps(Pieces(args), Entries(args), n, p);
  }

  // ---------------------------------------------------------------------------------------
  // Tokens that can come out
  // ---------------------------------------------------------------------------------------

  /** Not empty, and not of tabs only: an entry that is printed as nothing is not solid. */
  predicate Solid(token: string) {
    exists i :: 0 <= i < |token| && token[i] != '\t'
  }

  ghost predicate AllSolid(tokens: seq<string>) {
    forall i {:trigger tokens[i]} :: 0 <= i < |tokens| ==> Solid(tokens[i])
  }

  predicate GoodToken(token: string) {
    token != "" && NoBlank(token)
  }

  /** All that has been read, without quotes, is tokens that are neither empty nor blank. */
  ghost predicate Good(s: Scan) {
    && !s.inQuotes && NoBlank(s.current) && (s.inToken ==> Content(s) != "")
    && forall i {:trigger s.tokens[i]} :: 0 <= i < |s.tokens| ==> GoodToken(s.tokens[i])
  }

  lemma GoodStep(s: Scan, c: char)
    requires Good(s) && c != '"'
    ensures Good(Next(s, c))
  {
    NoBlankSlashes(s.slashes);
  }

  lemma {:induction false} GoodScan(s: Scan, text: string)
    requires Good(s) && '"' !in text
    ensures Good(ScanFrom(s, text))
    decreases |text|
  {
    if text != "" {
      GoodStep(s, text[0]);
      GoodScan(Next(s, text[0]), text[1..]);
    }
  }

  lemma GoodEnd(s: Scan)
    requires Good(s)
    ensures AllSolid(EndToken(s).tokens)
  {
    NoBlankSlashes(s.slashes);
    var tokens := EndToken(s).tokens;
    forall i | 0 <= i < |tokens| ensures Solid(tokens[i]) {
      assert GoodToken(tokens[i]);
      assert !IsBlank(tokens[i][0]);
    }
  }

  lemma UnquotedSolid(arg: string, asSwitch: bool)
    requires '"' !in " " + Printed(arg, asSwitch)
    ensures AllSolid(Entry(arg, asSwitch))
  {
    GoodScan(START, " " + Printed(arg, asSwitch));
    GoodEnd(ScanFrom(START, " " + Printed(arg, asSwitch)));
  }

  /** A quoted value comes behind an "=". */
  lemma QuotedValueSolid(arg: string)
    requires NoQuoteInName(arg, true) && IsQuoted(SwitchValue(arg))
    ensures AllSolid(Entry(arg, true))
  {
    var name, value := SwitchString(arg), SwitchValue(arg);
    NoQuoteInSum(" ", name);
    GoodScan(START, " " + name);
    var named := ScanFrom(START, " " + name);
    GoodStep(named, '=');
    var equalled := Next(named, '=');
    Assoc(" ", name, "=" + Quoted(value));
    ScanSum(START, " " + name, "=" + Quoted(value));
    ScanSum(named, "=", Quoted(value));
    ScanOne(named, '=');
    QuotedIsRead(equalled, value);
    var r := ScanFrom(equalled, Quoted(value));
    assert Content(equalled)[|Content(equalled)| - 1] == '=';
    assert Content(r)[|Content(equalled)| - 1] == '=';
    GoodEnd(equalled);
    forall i | 0 <= i < |r.tokens| + 1 ensures Solid((r.tokens + [Content(r)])[i]) {
      if i < |r.tokens| {
        assert EndToken(equalled).tokens[i] == r.tokens[i];
      }
    }
  }

  lemma EntrySolid(arg: string, asSwitch: bool)
    requires NoQuoteInName(arg, asSwitch)
    ensures AllSolid(Entry(arg, asSwitch))
  {
    if asSwitch && IsQuoted(SwitchValue(arg)) {
      QuotedValueSolid(arg);
    } else if asSwitch {
      QuotedHasNoQuote(SwitchValue(arg));
      NoQuoteInSum("=", SwitchValue(arg));
      NoQuoteInSum(SwitchString(arg), if SwitchValue(arg) != "" then "=" + SwitchValue(arg) else "");
      NoQuoteInSum(" ", Printed(arg, true));
      UnquotedSolid(arg, true);
    } else if IsQuoted(arg) {
      FaithfulIsRead(arg, false);
      var i :| 0 <= i < |arg| && NeedsQuotes(arg[i]);
      assert Solid(arg);
    } else {
      QuotedHasNoQuote(arg);
      NoQuoteInSum(" ", arg);
      UnquotedSolid(arg, false);
    }
  }

  /** Once something has been read, it comes out. */
  lemma {:induction false} Sticks(s: Scan, text: string)
    requires s.inToken || s.tokens != []
    ensures EndToken(ScanFrom(s, text)).tokens != []
    decreases |text|
  {
    if text != "" {
      Sticks(Next(s, text[0]), text[1..]);
    }
  }

  lemma {:induction false} SomethingRead(s: Scan, text: string, i: nat)
    requires i < |text| && !IsBlank(text[i])
    ensures EndToken(ScanFrom(s, text)).tokens != []
    decreases |text|
  {
    if i == 0 {
      Sticks(Next(s, text[0]), text[1..]);
    } else {
      SomethingRead(Next(s, text[0]), text[1..], i - 1);
    }
  }

  /** A solid entry is not printed as nothing. */
  lemma SolidIsRead(arg: string, asSwitch: bool)
    requires NoQuoteInName(arg, asSwitch) && Solid(arg)
    ensures Entry(arg, asSwitch) != []
  {
    var text := " " + Printed(arg, asSwitch);
    if asSwitch {
      SwitchNameFirst(arg);
      assert text[1] == arg[0];
      SomethingRead(START, text, 1);
    } else if IsQuoted(arg) {
      assert text[1] == '"';
      SomethingRead(START, text, 1);
    } else {
      var i :| 0 <= i < |arg| && arg[i] != '\t';
      assert !NeedsQuotes(arg[i]);
      assert text[i + 1] == arg[i];
      SomethingRead(START, text, i + 1);
    }
  }

  // ---------------------------------------------------------------------------------------
  // The whole command line
  // ---------------------------------------------------------------------------------------

  lemma {:induction false} JoinedSolid(parts: seq<seq<string>>, n: nat)
    requires n <= |parts| && forall i :: 0 <= i < n ==> AllSolid(parts[i])
    ensures AllSolid(Joined(parts, n))
  {
    if n > 0 {
      JoinedSolid(parts, n - 1);
      assert AllSolid(parts[n - 1]);
    }
  }

  /** Nothing of the first n parts is left out, and what follows them, if anything does, is solid. */
  ghost predicate BeginsWith(tokens: seq<string>, parts: seq<seq<string>>, n: nat)
    requires n <= |parts|
  {
    var all := Joined(parts, n);
    all <= tokens && (all < tokens ==> Solid(tokens[|all|]))
  }

  /** Part f should give args[f], but begins with something else or is empty. */
  lemma JoinedDiffers(parts: seq<seq<string>>, args: seq<string>, f: nat, n: nat, tokens: seq<string>)
    requires f < n <= |parts| == |args| && forall i :: 0 <= i < f ==> parts[i] == [args[i]]
    requires forall i :: 0 <= i < n ==> AllSolid(parts[i])
    requires if parts[f] == [] then !Solid(args[f]) else parts[f][0] != args[f]
    requires BeginsWith(tokens, parts, n)
    ensures tokens != args
  {
    JoinedSingles(parts, args, f);
    JoinedGrow(parts, f, n);
    JoinedGrow(parts, f + 1, n);
    JoinedSolid(parts, n);
    var all := Joined(parts, n);
    if parts[f] == [] {
      assert |tokens| > f ==> Solid(tokens[f]);
    } else {
      assert tokens[f] == all[f] == Joined(parts, f + 1)[f] == parts[f][0];
    }
  }

  ghost predicate FaithfulTo(args: seq<string>, n: nat)
    requires n <= |args|
  {
    forall i {:trigger args[i]} :: 0 <= i < n ==> Faithful(args[i], AsSwitch(args, i))
  }

  lemma FaithfulEntries(args: seq<string>, n: nat)
    requires n <= |args| && FaithfulTo(args, n)
    ensures Joined(Entries(args), n) == args[..n]
    ensures forall i :: 0 <= i < n ==> Entries(args)[i] == [args[i]]
  {
    forall i | 0 <= i < n ensures Entries(args)[i] == [args[i]] {
      assert Faithful(args[i], AsSwitch(args, i));
      FaithfulIsRead(args[i], AsSwitch(args, i));
    }
    JoinedSingles(Entries(args), args, n);
  }

  lemma {:induction false} FirstUnfaithful(args: seq<string>, n: nat) returns (f: nat)
    requires n <= |args| && !FaithfulTo(args, n)
    ensures f < n && FaithfulTo(args, f) && !Faithful(args[f], AsSwitch(args, f))
  {
    if FaithfulTo(args, n - 1) {
      f := n - 1;
    } else {
      f := FirstUnfaithful(args, n - 1);
    }
  }

  /** Where the first unfaithful entry should come out, something else does, or nothing. */
  lemma UnfaithfulDiffers(args: seq<string>, f: nat, n: nat, tokens: seq<string>)
    requires f < n <= |args| && NoQuoteInNames(args, n)
    requires FaithfulTo(args, f) && !Faithful(args[f], AsSwitch(args, f))
    requires BeginsWith(tokens, Entries(args), n)
    ensures tokens != args
  {
    assert NoQuoteInName(args[f], AsSwitch(args, f));
    FaithfulEntries(args, f);
    forall i | 0 <= i < n ensures AllSolid(Entries(args)[i]) {
      assert NoQuoteInName(args[i], AsSwitch(args, i));
      EntrySolid(args[i], AsSwitch(args, i));
    }
    Unfaithful(args[f], AsSwitch(args, f));
    JoinedDiffers(Entries(args), args, f, n, tokens);
  }

  lemma Unfaithful(arg: string, asSwitch: bool)
    requires NoQuoteInName(arg, asSwitch) && !Faithful(arg, asSwitch)
    ensures FallsApart(arg, asSwitch)
    ensures Entry(arg, asSwitch) == [] ==> !Solid(arg)
  {
    if asSwitch {
      UnfaithfulSwitch(arg);
    } else {
      UnfaithfulArgument(arg);
    }
    if Solid(arg) {
      SolidIsRead(arg, asSwitch);
    }
  }

  // ---------------------------------------------------------------------------------------
  // The first switch name with a double quote
  // ---------------------------------------------------------------------------------------

  lemma {:induction false} FirstQuotedName(args: seq<string>, n: nat) returns (h: nat)
    requires n <= |args|
    ensures h <= n && NoQuoteInNames(args, h)
    ensures h < n ==> AsSwitch(args, h) && '"' in SwitchString(args[h])
  {
    if n == 0 {
      h := 0;
    } else {
      h := FirstQuotedName(args, n - 1);
      if h == n - 1 && NoQuoteInName(args[h], AsSwitch(args, h)) {
        h := n;
      }
    }
  }

  /** What stands behind the first n pieces is nothing, or begins with a blank. */
  lemma {:induction false} TextFrom(pieces: seq<string>, n: nat, m: nat) returns (rest: string)
    requires n <= m <= |pieces| && forall i :: 0 <= i < |pieces| ==> " " <= pieces[i]
    ensures TextTo(pieces, m) == TextTo(pieces, n) + rest
    ensures rest == "" || rest[0] == ' '
  {
    if n == m {
      rest := "";
    } else {
      rest := TextFrom(pieces, n, m - 1);
      rest := rest + pieces[m - 1];
    }
  }

  lemma TailAround(args: seq<string>, h: nat) returns (rest: string)
    requires h < |args| && AsSwitch(args, h)
    ensures Tail(args) == TextTo(Pieces(args), h) + ([' '] + (Printed(args[h], true) + rest))
    ensures rest == "" || rest[0] == ' '
  {
    var text := TextTo(Pieces(args), h);
    rest := TextFrom(Pieces(args), h + 1, |args|);
    assert Pieces(args)[h] == [' '] + Printed(args[h], true);
    Regroup(text, [' '], Printed(args[h], true), rest);
  }

  lemma Regroup(a: string, b: string, c: string, d: string)
    ensures a + (b + c) + d == a + (b + (c + d))
  {
  }

  /** A blank ends what has been read. */
  lemma BlankBehind(text: string, done: seq<string>, more: string)
    requires HasRead(ScanFrom(START, text), done)
    ensures ScanFrom(START, text + ([' '] + more)) == ScanFrom(Between(done), more)
  {
    var s := ScanFrom(START, text);
    ScanSum(START, text, [' '] + more);
    ScanSum(s, [' '], more);
    ScanOne(s, ' ');
  }

  /** In place of entry h, the first with a double quote in its switch name, another token comes out. */
  lemma QuotedEntryDiffers(args: seq<string>, h: nat)
    requires h < |args| && NoQuoteInNames(args, h) && AsSwitch(args, h) && '"' in SwitchString(args[h])
    ensures var all, tokens := Joined(Entries(args), h), Tokenize(Tail(args));
            BeginsWith(tokens, Entries(args), h) && all < tokens && tokens[|all|] != args[h]
  {
    TextIsEntries(args, h);
    var rest := TailAround(args, h);
    BlankBehind(TextTo(Pieces(args), h), Joined(Entries(args), h), Printed(args[h], true) + rest);
    QuotedNameNeverBack(Joined(Entries(args), h), args[h], rest);
  }

  lemma QuotedEntryNeverBack(args: seq<string>, h: nat)
    requires h < |args| && NoQuoteInNames(args, h) && AsSwitch(args, h) && '"' in SwitchString(args[h])
    ensures Tokenize(Tail(args)) != args
  {
    QuotedEntryDiffers(args, h);
    if FaithfulTo(args, h) {
      FaithfulEntries(args, h);
    } else {
      var f := FirstUnfaithful(args, h);
      UnfaithfulDiffers(args, f, h, Tokenize(Tail(args)));
    }
  }

  // ---------------------------------------------------------------------------------------
  // The conditions
  // ---------------------------------------------------------------------------------------

  /** An entry is read again exactly if it is faithful. */
  lemma PrintsBackExactly(arg: string, asSwitch: bool)
    requires asSwitch ==> IsSwitchOnWindows(arg)
    ensures Tokenize(" " + Printed(arg, asSwitch)) == [arg] <==> Faithful(arg, asSwitch)
  {
    if Faithful(arg, asSwitch) {
      FaithfulIsRead(arg, asSwitch);
    } else if !asSwitch {
      UnfaithfulArgument(arg);
    } else if '"' in SwitchString(arg) {
      var printed := Printed(arg, true);
      QuotedNameNeverBack([], arg, "");
      ScanSum(START, " ", printed);
      ScanOne(START, ' ');
      assert printed + "" == printed;
    } else {
      UnfaithfulSwitch(arg);
    }
  }

  lemma FaithfulNameHasNoQuote(args: seq<string>, h: nat)
    requires h < |args| && AllFaithful(args) && AsSwitch(args, h)
    ensures '"' !in SwitchString(args[h])
  {
    assert Faithful(args[h], AsSwitch(args, h));
  }

  /** The printed command line can be taken apart into what it was made from exactly if all entries are faithful. */
  lemma PrintRoundTripExactly(args: seq<string>)
    ensures Tokenize(Tail(args)) == args <==> AllFaithful(args)
  {
    var h := FirstQuotedName(args, |args|);
    if h < |args| {
      QuotedEntryNeverBack(args, h);
      if AllFaithful(args) {
        FaithfulNameHasNoQuote(args, h);
      }
    } else if AllFaithful(args) {
      PrintRoundTrip(args);
    } else {
      assert !FaithfulTo(args, |args|);
      TextIsEntries(args, |args|);
      var f := FirstUnfaithful(args, |args|);
      UnfaithfulDiffers(args, f, |args|, Tokenize(Tail(args)));
    }
  }

  // ---------------------------------------------------------------------------------------
  // Command lines that do not come back
  // ---------------------------------------------------------------------------------------

  lemma ScanCons(s: Scan, c: char, rest: string)
    ensures ScanFrom(s, [c] + rest) == ScanFrom(Next(s, c), rest)
  {
    ScanSum(s, [c], rest);
    ScanOne(s, c);
  }

  lemma ScanThree(s: Scan, a: char, b: char, c: char)
    ensures ScanFrom(s, [a, b, c]) == Next(Next(Next(s, a), b), c)
  {
    assert [a, b, c] == [a] + ([b] + [c]);
    ScanCons(s, a, [b] + [c]);
    ScanCons(Next(s, a), b, [c]);
    ScanOne(Next(Next(s, a), b), c);
  }

  lemma TailOfTwo(a: string, b: string, asA: bool, asB: bool)
    requires asA == AsSwitch([a, b], 0) && asB == AsSwitch([a, b], 1)
    ensures Tail([a, b]) == (" " + Printed(a, asA)) + (" " + Printed(b, asB))
  {
    var p := Pieces([a, b]);
    assert TextTo(p, 1) == p[0];
  }

  lemma TabPrinted(arg: string)
    requires arg == ['a', '\t', 'b']
    ensures Tail([arg, ""]) == [' ', 'a', '\t'] + ['b', ' ']
  {
    TailOfTwo(arg, "", false, false);
    assert !IsQuoted(arg) && !IsQuoted("");
  }

  /** A tab is no reason to quote, but it parts; the empty argument is printed as nothing. */
  lemma TabFallsApart()
    ensures Tokenize(Tail(["a\tb", ""])) == ["a", "b"]
  {
    TabPrinted("a\tb");
    ScanSum(START, [' ', 'a', '\t'], ['b', ' ']);
    LetterBetweenBlanks([], 'a', '\t');
    LetterBeforeBlank([] + [['a']], 'b');
  }

  lemma LetterBetweenBlanks(done: seq<string>, c: char, blank: char)
    requires !IsBlank(c) && c != '\\' && c != '"' && IsBlank(blank)
    ensures ScanFrom(Between(done), [' ', c, blank]) == Between(done + [[c]])
  {
    ScanThree(Between(done), ' ', c, blank);
    assert "" + Slashes(0) + [c] == [c] && [c] + Slashes(0) == [c];
  }

  lemma LetterBeforeBlank(done: seq<string>, c: char)
    requires !IsBlank(c) && c != '\\' && c != '"'
    ensures ScanFrom(Between(done), [c, ' ']) == Between(done + [[c]])
  {
    assert [c, ' '] == [c] + [' '];
    ScanCons(Between(done), c, [' ']);
    ScanOne(Next(Between(done), c), ' ');
    assert "" + Slashes(0) + [c] == [c] && [c] + Slashes(0) == [c];
  }

  /** A switch whose name ends in a double quote, as it is printed: the quote is read as one. */
  lemma QuoteEndsName(s: Scan)
    requires s.slashes == 0 && s.current == "" && !s.inToken && !s.inQuotes
    ensures ScanFrom(s, [' ', '-', '"']) == Scan(s.tokens, "-", true, true, 0)
  {
    ScanThree(s, ' ', '-', '"');
    assert "" + Slashes(0) + ['-'] == "-" && "-" + Slashes(0) == "-";
  }

  lemma QuoteEndsToken(tokens: seq<string>)
    ensures ScanFrom(Scan(tokens, "-", true, true, 0), [' ', '-', '"']) == Scan(tokens, "- -", true, false, 0)
  {
    ScanThree(Scan(tokens, "-", true, true, 0), ' ', '-', '"');
    assert "-" + Slashes(0) + [' '] == "- " && "- " + Slashes(0) + ['-'] == "- -" && "- -" + Slashes(0) == "- -";
  }

  lemma QuotedNamePrinted(q: string)
    requires q == ['-', '"']
    ensures Printed(q, true) == q && Tail([q, q]) == [' ', '-', '"'] + [' ', '-', '"']
  {
    EqualsAt(q, 2);
    assert q[..2] == q && q[1] != '-';
    assert !Terminated([q, q], 0) && !Terminated([q, q], 1) && !Terminated([q, q], 2);
    TailOfTwo(q, q, true, true);
    assert " " + q == [' ', '-', '"'];
  }

  /** Two switches with a double quote in their names join, as the quotes come out raw. */
  lemma QuotedNamesJoin()
    ensures Tokenize(Tail(["-\"", "-\""])) == ["- -"]
  {
    QuotedNamePrinted("-\"");
    ScanSum(START, [' ', '-', '"'], [' ', '-', '"']);
    QuoteEndsName(START);
    QuoteEndsToken([]);
    assert "- -" + Slashes(0) == "- -";
  }
}
