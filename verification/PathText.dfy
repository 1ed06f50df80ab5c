/** Text handling for logical paths: `grab_until_sep` and `reverse_strcpy`. */
module PathText {
  import opened Codes
  import opened Strings

  /** Inside which quotes the scan is. */
  datatype Quote = Bare | Single | Double

  /** A token: the text without its quotes and escapes, and how much of the source it took. */
  datatype Token = Token(text: string, read: nat)

  function Longer(c: string, n: nat, t: Token): Token {
    Token(c + t.text, n + t.read)
  }

  /** What one turn of the scan does: it stops, or takes `n` characters for `c`. */
  datatype Turn = Stop | Take(c: string, n: nat, quote: Quote)

  /** An escape character at the very end takes the terminator as well. */
  function NextTurn(s: string, quote: Quote, keepEscapes: bool, sep: char): (t: Turn)
    requires s != ""
    ensures t.Take? ==> 1 <= t.n <= 2
  {
    if s[0] == '\\' && !keepEscapes && quote != Single then Take([CharAt(s, 1)], 2, quote)
    else match quote
      case Single => if s[0] == '\'' then Take("", 1, Bare) else Take([s[0]], 1, Single)
      case Double => if s[0] == '\"' then Take("", 1, Bare) else Take([s[0]], 1, Double)
      case Bare =>
        if s[0] == '\'' then Take("", 1, Single)
        else if s[0] == '\"' then Take("", 1, Double)
        else if s[0] == sep then Stop
        else Take([s[0]], 1, Bare)
  }

  /** The token at the start of `s`. */
  function Grab(s: string, quote: Quote, keepEscapes: bool, sep: char): Token {
    if s == "" then Token("", 0)
    else match NextTurn(s, quote, keepEscapes, sep)
      case Stop => Token("", 0)
      case Take(c, n, q) => if n > |s| then Token(c, n) else Longer(c, n, Grab(s[n..], q, keepEscapes, sep))
  }

  /** Text that the scan takes as it is. */
  predicate Verbatim(c: string, keepEscapes: bool, sep: char) {
    forall i :: 0 <= i < |c| ==> c[i] != sep && c[i] != '\'' && c[i] != '\"' && (keepEscapes || c[i] != '\\')
  }

  /** A verbatim component is read back up to its separator, or up to the end. */
  lemma {:induction false} GrabComponent(c: string, rest: string, keepEscapes: bool, sep: char)
    requires Verbatim(c, keepEscapes, sep) && sep !in {'\'', '\"', '\\'} && (rest == "" || rest[0] == sep)
    ensures Grab(c + rest, Bare, keepEscapes, sep) == Token(c, |c|)
  {
    if c == "" {
      assert c + rest == rest;
    } else {
      assert (c + rest)[1..] == c[1..] + rest && (c + rest)[0] == c[0];
      GrabComponent(c[1..], rest, keepEscapes, sep);
      assert [c[0]] + c[1..] == c;
    }
  }

  /** Verbatim text in front of anything is taken as it is. */
  lemma {:induction false} GrabVerbatim(c: string, rest: string, keepEscapes: bool, sep: char)
    requires Verbatim(c, keepEscapes, sep) && sep !in {'\'', '\"', '\\'}
    ensures Grab(c + rest, Bare, keepEscapes, sep) == Longer(c, |c|, Grab(rest, Bare, keepEscapes, sep))
  {
    if c == "" {
      assert c + rest == rest;
    } else {
      assert (c + rest)[1..] == c[1..] + rest && (c + rest)[0] == c[0];
      GrabVerbatim(c[1..], rest, keepEscapes, sep);
      var t := Grab(rest, Bare, keepEscapes, sep);
      assert [c[0]] + (c[1..] + t.text) == c + t.text;
    }
  }

  lemma TurnInside(src: string, quote: Quote, keepEscapes: bool, sep: char)
    requires src != "" && quote != Bare && (quote == Single || keepEscapes || src[0] != '\\')
    ensures NextTurn(src, quote, keepEscapes, sep) == if src[0] == Mark(quote) then Take("", 1, Bare) else Take([src[0]], 1, quote)
  {
  }

  lemma {:induction false} InsideQuotes(s: string, rest: string, quote: Quote, keepEscapes: bool, sep: char)
    requires quote != Bare && forall i :: 0 <= i < |s| ==> s[i] != Mark(quote)
    requires quote == Single || keepEscapes || forall i :: 0 <= i < |s| ==> s[i] != '\\'
    ensures Grab(s + ([Mark(quote)] + rest), quote, keepEscapes, sep) == Longer(s, |s| + 1, Grab(rest, Bare, keepEscapes, sep))
  {
    hide NextTurn;
    var src := s + ([Mark(quote)] + rest);
    TurnInside(src, quote, keepEscapes, sep);
    if s == "" {
      assert src[0] == Mark(quote) && src[1..] == rest;
    } else {
      assert src[0] == s[0] && src[1..] == s[1..] + ([Mark(quote)] + rest);
      InsideQuotes(s[1..], rest, quote, keepEscapes, sep);
      var t := Grab(rest, Bare, keepEscapes, sep);
      assert [s[0]] + (s[1..] + t.text) == s + t.text;
    }
  }

  /** Of text in quotes the quotes are dropped and the rest is taken as it is, separators and all; double quotes do not
      keep an escape character from escaping. */
  lemma GrabQuoted(s: string, rest: string, quote: Quote, keepEscapes: bool, sep: char)
    requires quote != Bare && (forall i :: 0 <= i < |s| ==> s[i] != Mark(quote))
    requires quote == Single || keepEscapes || forall i :: 0 <= i < |s| ==> s[i] != '\\'
    ensures Grab([Mark(quote)] + s + [Mark(quote)] + rest, Bare, keepEscapes, sep) == Longer(s, |s| + 2, Grab(rest, Bare, keepEscapes, sep))
  {
    var src := [Mark(quote)] + s + [Mark(quote)] + rest;
    assert src[0] == Mark(quote) && src[1..] == s + ([Mark(quote)] + rest);
    InsideQuotes(s, rest, quote, keepEscapes, sep);
    var t := Grab(rest, Bare, keepEscapes, sep);
    assert "" + (s + t.text) == s + t.text;
  }

  /** Any character after an escape is taken for itself, except in single quotes. */
  lemma GrabEscaped(c: char, rest: string, quote: Quote, sep: char)
    requires quote != Single
    ensures Grab(['\\', c] + rest, quote, false, sep) == Longer([c], 2, Grab(rest, quote, false, sep))
  {
    assert (['\\', c] + rest)[2..] == rest;
  }

  function Mark(quote: Quote): char
    requires quote != Bare
  {
    if quote == Single then '\'' else '\"'
  }

  /** The scan stops at a separator or at the end; only a trailing escape goes further. */
  lemma {:induction false} GrabStops(s: string, quote: Quote, keepEscapes: bool, sep: char)
    ensures var n := Grab(s, quote, keepEscapes, sep).read; n <= |s| + 1 && (n < |s| ==> s[n] == sep) && (keepEscapes ==> n <= |s|)
  {
    if s != "" {
      var t := NextTurn(s, quote, keepEscapes, sep);
      if t.Take? && t.n <= |s| {
        GrabStops(s[t.n..], t.quote, keepEscapes, sep);
      }
    }
  }

  /** Inside which quotes the scan is after one more character, when escapes are kept. */
  function Quoted(c: char, quote: Quote): Quote {
    match quote
    case Single => if c == '\'' then Bare else Single
    case Double => if c == '\"' then Bare else Double
    case Bare => if c == '\'' then Single else if c == '\"' then Double else Bare
  }

  /** Inside which quotes a text ends. */
  function QuoteAfter(s: string, quote: Quote): Quote {
    if s == "" then quote else QuoteAfter(s[1..], Quoted(s[0], quote))
  }

  lemma {:induction false} QuoteConcat(a: string, b: string, quote: Quote)
    ensures QuoteAfter(a + b, quote) == QuoteAfter(b, QuoteAfter(a, quote))
  {
    if a == "" {
      assert a + b == b;
    } else {
      assert (a + b)[1..] == a[1..] + b && (a + b)[0] == a[0];
      QuoteConcat(a[1..], b, Quoted(a[0], quote));
    }
  }

  lemma {:induction false} VerbatimIsClosed(c: string, sep: char)
    requires Verbatim(c, true, sep)
    ensures QuoteAfter(c, Bare) == Bare
  {
    if c != "" {
      VerbatimIsClosed(c[1..], sep);
    }
  }

  /** A separator after a text whose quotes are closed does not change its first token, and quotes are closed
      after the token too. */
  lemma {:induction false} GrabClosed(s: string, rest: string, quote: Quote, sep: char)
    requires QuoteAfter(s, quote) == Bare && (rest == "" || rest[0] == sep) && sep !in {'\'', '\"'}
    ensures Grab(s + rest, quote, true, sep) == Grab(s, quote, true, sep)
    ensures var n := Grab(s, quote, true, sep).read; n <= |s| && QuoteAfter(s[n..], Bare) == Bare
  {
    hide NextTurn;
    if s == "" {
      assert s + rest == rest;
      StopsAt(rest, sep);
    } else {
      assert (s + rest)[0] == s[0] && (s + rest)[1..] == s[1..] + rest;
      OneCharacter(s, s + rest, quote, sep);
      if NextTurn(s, quote, true, sep).Take? {
        var q := Quoted(s[0], quote);
        GrabClosed(s[1..], rest, q, sep);
        assert s[1..][Grab(s[1..], q, true, sep).read..] == s[Grab(s, quote, true, sep).read..];
      } else {
        assert s[0..] == s;
      }
    }
  }

  lemma StopsAt(rest: string, sep: char)
    requires (rest == "" || rest[0] == sep) && sep !in {'\'', '\"'}
    ensures Grab(rest, Bare, true, sep) == Token("", 0)
  {
  }

  /** When escapes are kept every turn takes one character, or stops outside quotes. */
  lemma OneCharacter(s: string, s': string, quote: Quote, sep: char)
    requires s != "" && s' != "" && s[0] == s'[0] && sep !in {'\'', '\"'}
    ensures NextTurn(s, quote, true, sep) == NextTurn(s', quote, true, sep)
    ensures var t := NextTurn(s, quote, true, sep); if t.Stop? then quote == Bare else t.n == 1 && t.quote == Quoted(s[0], quote)
  {
  }

  /** After `i` characters the scan has `dst` and is inside `quote`. */
  ghost predicate Scanned(src: string, keepEscapes: bool, sep: char, i: nat, dst: string, quote: Quote) {
    var all := Grab(src, Bare, keepEscapes, sep);
    if i <= |src| then all == Longer(dst, i, Grab(src[i..], quote, keepEscapes, sep)) else all == Token(dst, i)
  }

  lemma ScannedMore(src: string, keepEscapes: bool, sep: char, i: nat, dst: string, quote: Quote)
    requires i < |src| && Scanned(src, keepEscapes, sep, i, dst, quote)
    ensures match NextTurn(src[i..], quote, keepEscapes, sep)
            case Stop => Grab(src, Bare, keepEscapes, sep) == Token(dst, i)
            case Take(c, n, q) => Scanned(src, keepEscapes, sep, i + n, dst + c, q)
  {
    hide NextTurn;
    var t := NextTurn(src[i..], quote, keepEscapes, sep);
    if t.Stop? {
      assert dst + "" == dst;
    } else if i + t.n <= |src| {
      assert src[i..][t.n..] == src[i + t.n..];
      var rest := Grab(src[i + t.n..], t.quote, keepEscapes, sep);
      assert dst + (t.c + rest.text) == (dst + t.c) + rest.text;
    }
  }

  lemma ScannedNothing(src: string, keepEscapes: bool, sep: char)
    ensures Scanned(src, keepEscapes, sep, 0, "", Bare)
  {
    assert src[0..] == src;
  }

  lemma ScannedAll(src: string, keepEscapes: bool, sep: char, i: nat, dst: string, quote: Quote)
    requires |src| <= i && Scanned(src, keepEscapes, sep, i, dst, quote)
    ensures Grab(src, Bare, keepEscapes, sep) == Token(dst, i)
  {
    assert dst + "" == dst;
  }

  function QuoteOf(inSingle: bool, inDouble: bool): Quote {
    if inSingle then Single else if inDouble then Double else Bare
  }

  // grab_until_sep, on a terminated source; `token` is what dst and the two lengths become.
  method GrabUntilSep(src: string, maxLen: nat, keepEscapes: bool, sep: char) returns (ret: int, token: Token)
    ensures ret == if maxLen == 0 then WRONG_ARGS else if |src| > maxLen then VERIFY_FAIL else OK
    ensures ret == OK ==> token == Grab(src, Bare, keepEscapes, sep)
  {
    hide Scanned, Grab, NextTurn;
    token := Token("", 0);
    if maxLen == 0 {
      return WRONG_ARGS, token;
    }
    if |src| > maxLen {
      return VERIFY_FAIL, token;
    }
    var dst, inSingle, inDouble, done, i := "", false, false, false, 0;
    ScannedNothing(src, keepEscapes, sep);
    while i < |src| && !done
      invariant 0 <= i
      invariant !done ==> Scanned(src, keepEscapes, sep, i, dst, QuoteOf(inSingle, inDouble)) && !(inSingle && inDouble)
      invariant done ==> i <= |src| && Grab(src, Bare, keepEscapes, sep) == Token(dst, i)
      decreases !done, |src| - i
    {
      ScannedMore(src, keepEscapes, sep, i, dst, QuoteOf(inSingle, inDouble));
      i, dst, inSingle, inDouble, done := ScanChar(src, keepEscapes, sep, i, dst, inSingle, inDouble);
    }
    if !done {
      ScannedAll(src, keepEscapes, sep, i, dst, QuoteOf(inSingle, inDouble));
    }
    token := Token(dst, i);
    ret := OK;
  }

  // The loop body; `done` stands for the break.
  method ScanChar(src: string, keepEscapes: bool, sep: char, at: nat, text: string, single: bool, double: bool)
    returns (i: nat, dst: string, inSingle: bool, inDouble: bool, done: bool)
    requires at < |src| && !(single && double)
    ensures !(inSingle && inDouble)
    ensures match NextTurn(src[at..], QuoteOf(single, double), keepEscapes, sep)
            case Stop => done && i == at && dst == text
            case Take(c, n, q) => !done && i == at + n && dst == text + c && QuoteOf(inSingle, inDouble) == q
  {
    i, dst, inSingle, inDouble, done := at, text, single, double, false;
    if inSingle {
      if src[i] == '\'' {
        inSingle := false;
      } else {
        dst := dst + [src[i]];
      }
    } else if src[i] == '\\' && !keepEscapes {
      i := i + 1;
      dst := dst + [CharAt(src, i)];
    } else if inDouble {
      if src[i] == '\"' {
        inDouble := false;
      } else {
        dst := dst + [src[i]];
      }
    } else if src[i] == '\'' {
      inSingle := true;
    } else if src[i] == '\"' {
      inDouble := true;
    } else if src[i] == sep {
      done := true;
      return;
    } else {
      dst := dst + [src[i]];
    }
    i := i + 1;
    assert text + "" == text;
  }

  // ---------------------------------------------------------------------
  // Copying

  function Reverse(s: string): (r: string)
    ensures |r| == |s|
  {
    seq(|s|, i requires 0 <= i < |s| => s[|s| - 1 - i])
  }

  lemma ReverseConcat(a: string, b: string)
    ensures Reverse(a + b) == Reverse(b) + Reverse(a)
  {
  }

  lemma ReverseTwice(s: string)
    ensures Reverse(Reverse(s)) == s
  {
  }

  /** `a` with `s` written at `at`. */
  function Put(a: string, at: nat, s: string): (r: string)
    requires at + |s| <= |a|
    ensures |r| == |a|
  {
    a[..at] + s + a[at + |s|..]
  }

  // strcpy to a place in a buffer
  method StrCpy(dst: array<char>, at: nat, src: string)
    requires at + |src| < dst.Length
    modifies dst
    ensures dst[..] == Put(old(dst[..]), at, src + "\0")
  {
    for i := 0 to |src|
      invariant forall j :: 0 <= j < dst.Length ==> dst[j] == if at <= j < at + i then src[j - at] else old(dst[j])
    {
      dst[at + i] := src[i];
    }
    dst[at + |src|] := '\0';
  }

  // reverse_strcpy
  method ReverseStrCpy(dst: array<char>, at: nat, src: string)
    requires at + |src| < dst.Length
    modifies dst
    ensures dst[..] == Put(old(dst[..]), at, Reverse(src) + "\0")
  {
    for i := 0 to |src|
      invariant forall j :: 0 <= j < dst.Length ==> dst[j] == if at <= j < at + i then src[|src| - 1 - (j - at)] else old(dst[j])
    {
      dst[at + i] := src[|src| - 1 - i];
    }
    dst[at + |src|] := '\0';
  }
}
