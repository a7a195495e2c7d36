/**
 A switch whose name has a double quote is printed raw, and never comes back: each double quote that is read
 costs a character, so what is read of the name lags behind it.
 */
module CommandLineQuotedNames {
  import opened CommandLineParsing
  import opened CommandLineWindows

  /** Between tokens, outside quotes, when `done` has been read. */
  function Between(done: seq<string>): Scan {
    Scan(done, "", false, false, 0)
  }

  lemma {:induction false} SlashesLength(n: nat)
    ensures |Slashes(n)| == n
  {
    if n > 0 {
      SlashesLength(n - 1);
    }
  }

  lemma ScanSnoc(s: Scan, text: string)
    requires text != ""
    ensures ScanFrom(s, text) == Next(ScanFrom(s, text[..|text| - 1]), text[|text| - 1])
  {
    var n := |text| - 1;
    assert text == text[..n] + [text[n]];
    ScanSum(s, text[..n], [text[n]]);
    ScanOne(ScanFrom(s, text[..n]), text[n]);
  }

  /** One more character adds at most one to the token being read, and a double quote adds none. */
  lemma StepLag(s: Scan, c: char)
    requires Next(s, c).tokens == s.tokens
    ensures |Content(Next(s, c))| <= |Content(s)| + if c == '"' then 0 else 1
  {
    SlashesLength(s.slashes);
    SlashesLength(s.slashes / 2);
    SlashesLength(s.slashes + 1);
  }

  ghost predicate Lags(s: Scan, text: string) {
    && |Content(s)| <= |text| && ('"' in text ==> |Content(s)| < |text|)
    && (s.inQuotes ==> '"' in text)
    && (text != "" && !IsBlank(text[0]) ==> s.inToken)
  }

  /** While the first token lasts. */
  lemma {:induction false} Lag(done: seq<string>, text: string)
    requires ScanFrom(Between(done), text).tokens == done
    ensures Lags(ScanFrom(Between(done), text), text)
    decreases |text|
  {
    if text != "" {
      var n := |text| - 1;
      var s := ScanFrom(Between(done), text[..n]);
      ScanSnoc(Between(done), text);
      TokensGrow(Between(done), text[..n]);
      Lag(done, text[..n]);
      StepLag(s, text[n]);
    }
  }

  /** A token that ends within the text is shorter than the text. */
  lemma {:induction false} EndedEarly(done: seq<string>, text: string)
    requires ScanFrom(Between(done), text).tokens != done
    ensures var tokens := ScanFrom(Between(done), text).tokens;
            done < tokens && |tokens[|done|]| < |text|
    decreases |text|
  {
    var n := |text| - 1;
    var s := ScanFrom(Between(done), text[..n]);
    ScanSnoc(Between(done), text);
    if s.tokens == done {
      Lag(done, text[..n]);
    } else {
      EndedEarly(done, text[..n]);
    }
  }

  /** What has been read of a token stays its beginning. */
  lemma {:induction false} CurrentKept(s: Scan, text: string)
    requires s.inToken
    ensures var tokens := EndToken(ScanFrom(s, text)).tokens;
            s.tokens < tokens && s.current <= tokens[|s.tokens|]
    ensures var r := ScanFrom(s, text);
            r.tokens == s.tokens ==> s.current <= r.current
    decreases |text|
  {
    if text != "" {
      var next := Next(s, text[0]);
      TokensGrow(next, text[1..]);
      if next.tokens == s.tokens {
        CurrentKept(next, text[1..]);
      } else {
        TokenKept(next, text[1..]);
      }
    }
  }

  lemma TokenKept(s: Scan, text: string)
    ensures s.tokens <= EndToken(ScanFrom(s, text)).tokens
  {
    TokensGrow(s, text);
  }

  /** The character c is read at this point and goes into the token, at the place where the token has got to. */
  lemma PutDown(s: Scan, c: char, text: string)
    requires Next(s, c).tokens == s.tokens && c != '\\' && c != '"' && (IsBlank(c) ==> s.inQuotes)
    ensures var tokens := EndToken(ScanFrom(s, [c] + text)).tokens;
            && s.tokens < tokens && |Content(s)| < |tokens[|s.tokens|]|
            && tokens[|s.tokens|][|Content(s)|] == c
  {
    PutDownNow(s, c);
    ScanSum(s, [c], text);
    ScanOne(s, c);
    KeptAt(Next(s, c), text, |Content(s)|);
  }

  lemma PutDownNow(s: Scan, c: char)
    requires Next(s, c).tokens == s.tokens && c != '\\' && c != '"' && (IsBlank(c) ==> s.inQuotes)
    ensures Next(s, c).inToken && Next(s, c).current == Content(s) + [c]
  {
  }

  lemma KeptAt(s: Scan, text: string, at: nat)
    requires s.inToken && at < |s.current|
    ensures var tokens := EndToken(ScanFrom(s, text)).tokens;
            && s.tokens < tokens && at < |tokens[|s.tokens|]|
            && tokens[|s.tokens|][at] == s.current[at]
  {
    CurrentKept(s, text);
  }

  /** The first token of what is read from `text`. */
  function FirstToken(done: seq<string>, text: string): (token: string)
    requires text != "" && !IsBlank(text[0])
  {
    FirstTokenThere(done, text);
    EndToken(ScanFrom(Between(done), text)).tokens[|done|]
  }

  lemma FirstTokenThere(done: seq<string>, text: string)
    requires text != "" && !IsBlank(text[0])
    ensures done < EndToken(ScanFrom(Between(done), text)).tokens
    ensures text[0] != '\\' && text[0] != '"' ==>
              var token := EndToken(ScanFrom(Between(done), text)).tokens[|done|];
              token != "" && token[0] == text[0]
  {
    CurrentKept(Next(Between(done), text[0]), text[1..]);
  }

  /** A character of the text that is put down within the first token, at the place the lag allows. */
  lemma PutDownAt(done: seq<string>, text: string, i: nat)
    requires i < |text| && !IsBlank(text[0]) && text[i] != '\\' && text[i] != '"'
    requires ScanFrom(Between(done), text[..i + 1]).tokens == done
    requires IsBlank(text[i]) ==> i > 0
    ensures var at := |Content(ScanFrom(Between(done), text[..i]))|;
            && at <= i && ('"' in text[..i] || IsBlank(text[i]) ==> at < i)
            && at < |FirstToken(done, text)| && FirstToken(done, text)[at] == text[i]
  {
    var s := ScanFrom(Between(done), text[..i]);
    assert text[..i + 1][..i] == text[..i];
    ScanSnoc(Between(done), text[..i + 1]);
    TokensGrow(Between(done), text[..i]);
    Lag(done, text[..i]);
    assert text == text[..i] + ([text[i]] + text[i + 1..]);
    ScanSum(Between(done), text[..i], [text[i]] + text[i + 1..]);
    PutDown(s, text[i], text[i + 1..]);
  }

  /** Within the first token a blank was read in quotes, so it was put down further to the left: another blank. */
  lemma {:induction false} BlankDescends(done: seq<string>, text: string, n: nat, i: nat)
    requires i <= n < |text| && !IsBlank(text[0]) && text[i] == ' '
    requires ScanFrom(Between(done), text[..n + 1]).tokens == done
    ensures !(text[..n] <= FirstToken(done, text))
    decreases i
  {
    TokensUpTo(done, text, n + 1, i + 1);
    PutDownAt(done, text, i);
    var at := |Content(ScanFrom(Between(done), text[..i]))|;
    if text[..n] <= FirstToken(done, text) {
      assert text[..n][at] == text[at];
      BlankDescends(done, text, n, at);
    }
  }

  lemma TokensUpTo(done: seq<string>, text: string, n: nat, i: nat)
    requires i <= n <= |text| && ScanFrom(Between(done), text[..n]).tokens == done
    ensures ScanFrom(Between(done), text[..i]).tokens == done
  {
    assert text[..n] == text[..i] + text[i..n];
    ScanSum(Between(done), text[..i], text[i..n]);
    TokensGrow(Between(done), text[..i]);
    TokensGrow(ScanFrom(Between(done), text[..i]), text[i..n]);
  }

  /** A first token that ends within the text is shorter than that. */
  lemma TokenEnds(done: seq<string>, text: string, n: nat)
    requires n <= |text| && text != "" && !IsBlank(text[0])
    requires ScanFrom(Between(done), text[..n]).tokens != done
    ensures |FirstToken(done, text)| < n
  {
    EndedEarly(done, text[..n]);
    assert text == text[..n] + text[n..];
    ScanSum(Between(done), text[..n], text[n..]);
    TokenKept(ScanFrom(Between(done), text[..n]), text[n..]);
  }

  /** A name with a double quote in it, followed by "=", by a blank or by nothing, is not what comes out. */
  lemma QuotedName(done: seq<string>, name: string, more: string)
    requires name != "" && !IsBlank(name[0]) && '"' in name && NoEquals(name)
    requires more == "" || more[0] == '=' || more[0] == ' '
    ensures !(name <= FirstToken(done, name + more))
  {
    var text, n := name + more, |name|;
    assert text[..n] == name;
    if ScanFrom(Between(done), name).tokens != done {
      TokenEnds(done, text, n);
    } else if more == "" {
      Lag(done, name);
      assert text == name;
    } else if ScanFrom(Between(done), text[..n + 1]).tokens != done {
      BlankEnds(done, text, n);
    } else if more[0] == ' ' {
      BlankDescends(done, text, n, n);
    } else {
      PutDownAt(done, text, n);
    }
  }

  lemma BlankEnds(done: seq<string>, text: string, n: nat)
    requires n < |text| && !IsBlank(text[0]) && '"' in text[..n]
    requires ScanFrom(Between(done), text[..n]).tokens == done
    requires ScanFrom(Between(done), text[..n + 1]).tokens != done
    ensures |FirstToken(done, text)| < n
  {
    Lag(done, text[..n]);
    assert text[..n + 1][..n] == text[..n];
    ScanSnoc(Between(done), text[..n + 1]);
    assert text == text[..n + 1] + text[n + 1..];
    ScanSum(Between(done), text[..n + 1], text[n + 1..]);
    TokenKept(ScanFrom(Between(done), text[..n + 1]), text[n + 1..]);
  }

  /** Where a switch with a double quote in its name should come out, another token does, which begins like it. */
  lemma QuotedNameNeverBack(done: seq<string>, arg: string, rest: string)
    requires IsSwitchOnWindows(arg) && '"' in SwitchString(arg)
    requires rest == "" || rest[0] == ' '
    ensures var tokens := EndToken(ScanFrom(Between(done), Printed(arg, true) + rest)).tokens;
            && done < tokens && tokens[|done|] != arg
            && tokens[|done|] != "" && tokens[|done|][0] == arg[0]
  {
    var name, value := SwitchString(arg), SwitchValue(arg);
    var more := (if value != "" then "=" + Quoted(value) else "") + rest;
    SwitchNameFirst(arg);
    EqualsSpec(arg, 0);
    assert Printed(arg, true) + rest == name + more;
    FirstTokenThere(done, name + more);
    QuotedName(done, name, more);
    assert name <= arg;
  }
}
