/** The command-line tokenizer and joiner of libcli.c. A string is the text before its terminator. */
module CliWords {

  predicate IsSpace(c: char) {
    c == ' ' || '\t' <= c <= '\r'
  }

  predicate IsQuote(c: char) {
    c == '"' || c == '\''
  }

  /** `quote` is the open quote, or '\0'; `start` is word_start, or -1 for none. */
  predicate State(line: string, p: nat, start: int, quote: char) {
    p <= |line| && -1 <= start <= p && (quote != '\0' ==> IsQuote(quote) && 0 <= start)
  }

  /** The word under way ends at p. */
  predicate Ends(line: string, p: nat, start: int, quote: char)
    requires State(line, p, start, quote)
  {
    || p == |line|
    || (quote != '\0' && line[p] == quote)
    || (start >= 0 && quote == '\0' && (IsSpace(line[p]) || line[p] == '|'))
  }

  /** What cli_parse_line returns from the given state of its loop on. */
  function Scan(line: string, p: nat, start: int, quote: char, words: seq<string>, maxWords: nat): seq<string>
    requires State(line, p, start, quote)
    decreases |line| - p, if start >= 0 then 1 else 0
  {
    if |words| + 1 >= maxWords then words
    else if Ends(line, p, start, quote) then
      var words' := if start >= 0 then words + [line[start..p]] else words;
      if p == |line| then words'
      else if quote != '\0' then Scan(line, p + 1, -1, '\0', words', maxWords)
      else Scan(line, p, -1, '\0', words', maxWords)
    else if IsQuote(line[p]) then Scan(line, p + 1, p + 1, line[p], words, maxWords)
    else if start >= 0 then Scan(line, p + 1, start, quote, words, maxWords)
    else if line[p] == '|' then Scan(line, p + 1, -1, quote, words + ["|"], maxWords)
    else Scan(line, p + 1, if IsSpace(line[p]) then -1 else p, quote, words, maxWords)
  }

  function Parse(line: string, maxWords: nat): seq<string> {
    Scan(line, 0, 0, '\0', [], maxWords)
  }

  method ParseLine(line: string, maxWords: nat) returns (words: seq<string>)
    ensures words == Parse(line, maxWords)
  {
    words := [];
    var p: nat := 0;
    var start := 0;
    var quote := '\0';
    while |words| + 1 < maxWords
      invariant State(line, p, start, quote)
      invariant Scan(line, p, start, quote, words, maxWords) == Parse(line, maxWords)
      decreases |line| - p, if start >= 0 then 1 else 0
    {
      if Ends(line, p, start, quote) {
        if start >= 0 {
          words := words + [line[start..p]];
        }
        if p == |line| {
          break;
        }
        if quote != '\0' {
          p := p + 1;
        }
        quote := '\0';
        start := -1;
      } else if IsQuote(line[p]) {
        quote := line[p];
        p := p + 1;
        start := p;
      } else {
        if start < 0 {
          if line[p] == '|' {
            words := words + ["|"];
          } else if !IsSpace(line[p]) {
            start := p;
          }
        }
        p := p + 1;
      }
    }
  }

  function Join(ws: seq<string>): string {
    if ws == [] then "" else if |ws| == 1 then ws[0] else ws[0] + " " + Join(ws[1..])
  }

  lemma {:induction false} JoinMore(ws: seq<string>, w: string)
    ensures Join(ws + [w]) == if ws == [] then w else Join(ws) + " " + w
  {
    if |ws| > 1 {
      JoinMore(ws[1..], w);
      assert (ws + [w])[1..] == ws[1..] + [w];
    } else if |ws| == 1 {
      assert (ws + [w])[1..] == [w];
    }
  }

  /** The length pass of join_words reserves exactly what the appending pass writes. */
  method JoinWords(argv: seq<string>) returns (p: string)
    ensures p == Join(argv)
  {
    var len := 0;
    for i := 0 to |argv|
      invariant len == |Join(argv[..i])|
    {
      JoinMore(argv[..i], argv[i]);
      assert argv[..i] + [argv[i]] == argv[..i + 1];
      if i > 0 {
        len := len + 1;
      }
      len := len + |argv[i]|;
    }
    p := "";
    for i := 0 to |argv|
      invariant p == Join(argv[..i])
    {
      JoinMore(argv[..i], argv[i]);
      assert argv[..i] + [argv[i]] == argv[..i + 1];
      if i > 0 {
        p := p + " ";
      }
      p := p + argv[i];
    }
    assert argv[..|argv|] == argv;
    assert |p| == len;
  }

  predicate PlainChar(c: char) {
    !IsSpace(c) && !IsQuote(c) && c != '|'
  }

  predicate PlainText(w: string) {
    forall i :: 0 <= i < |w| ==> PlainChar(w[i])
  }

  /** The words that survive joining and splitting: at least one, not too many, without blanks, quotes or bars;
      a lone bar and no empty word after the first. */
  predicate Splittable(ws: seq<string>, maxWords: nat) {
    && 1 <= |ws| < maxWords && PlainText(ws[0])
    && forall i :: 1 <= i < |ws| ==> ws[i] == "|" || (ws[i] != "" && PlainText(ws[i]))
  }

  lemma {:induction false} ScanPlain(line: string, p: nat, k: nat, start: nat, words: seq<string>, maxWords: nat)
    requires start <= p && p + k <= |line| && |words| + 1 < maxWords
    requires forall i :: p <= i < p + k ==> PlainChar(line[i])
    ensures Scan(line, p, start, '\0', words, maxWords) == Scan(line, p + k, start, '\0', words, maxWords)
    decreases k
  {
    if k > 0 {
      ScanPlain(line, p + 1, k - 1, start, words, maxWords);
    }
  }

  /** From behind the blank before word i, the rest of a joined line splits into the remaining words. */
  lemma {:induction false} ScanRest(ws: seq<string>, i: nat, line: string, p: nat, maxWords: nat)
    requires Splittable(ws, maxWords) && 1 <= i < |ws| && p <= |line| && line[p..] == Join(ws[i..])
    ensures Scan(line, p, -1, '\0', ws[..i], maxWords) == ws
    decreases |ws| - i
  {
    var w := ws[i];
    var q := p + |w|;
    JoinFront(ws, i, line, p);
    if w == "|" {
      assert line[p] == '|';
      AfterWord(ws, i, line, q, maxWords);
    } else {
      assert line[p] == w[0] && forall x :: p <= x < q ==> line[x] == w[x - p];
      ScanPlain(line, p + 1, |w| - 1, p, ws[..i], maxWords);
      assert line[p..q] == w;
      AfterWord(ws, i, line, q, maxWords);
      if q < |line| {
        assert line[q] == ' ';
      }
    }
  }

  /** The front of the joined tail is the word, then a blank and the rest if there is one. */
  lemma JoinFront(ws: seq<string>, i: nat, line: string, p: nat)
    requires i < |ws| && p <= |line| && line[p..] == Join(ws[i..])
    ensures p + |ws[i]| <= |line| && line[p..p + |ws[i]|] == ws[i]
    ensures var q := p + |ws[i]|;
            if i + 1 == |ws| then q == |line| else q < |line| && line[q] == ' ' && line[q + 1..] == Join(ws[i + 1..])
  {}

  /** With word i stored and nothing under way, scanning goes on behind the blank. */
  lemma {:induction false} AfterWord(ws: seq<string>, i: nat, line: string, q: nat, maxWords: nat)
    requires Splittable(ws, maxWords) && i < |ws| && q <= |line|
    requires if i + 1 == |ws| then q == |line| else q < |line| && line[q] == ' ' && line[q + 1..] == Join(ws[i + 1..])
    ensures Scan(line, q, -1, '\0', ws[..i] + [ws[i]], maxWords) == ws
    decreases |ws| - i, 0
  {
    assert ws[..i] + [ws[i]] == ws[..i + 1];
    if i + 1 == |ws| {
      assert ws[..i + 1] == ws;
    } else {
      ScanRest(ws, i + 1, line, q + 1, maxWords);
    }
  }

  lemma JoinThenParse(ws: seq<string>, maxWords: nat)
    requires Splittable(ws, maxWords)
    ensures Parse(Join(ws), maxWords) == ws
  {
    var line, w := Join(ws), ws[0];
    assert ws[0..] == ws;
    JoinFront(ws, 0, line, 0);
    assert forall x :: 0 <= x < |w| ==> line[x] == w[x];
    ScanPlain(line, 0, |w|, 0, [], maxWords);
    assert line[0..|w|] == w && [] + [w] == ws[..0] + [ws[0]];
    AfterWord(ws, 0, line, |w|, maxWords);
  }

  predicate Unquoted(w: string) {
    forall i :: 0 <= i < |w| ==> !IsQuote(w[i])
  }

  predicate AllUnquoted(ws: seq<string>) {
    forall k :: 0 <= k < |ws| ==> Unquoted(ws[k])
  }

  /** No word the tokenizer returns contains a quote. */
  lemma {:induction false} WordsAreUnquoted(line: string, p: nat, start: int, quote: char, words: seq<string>,
                                            maxWords: nat)
    requires State(line, p, start, quote) && AllUnquoted(words)
    requires start >= 0 ==> Unquoted(line[start..p])
    ensures AllUnquoted(Scan(line, p, start, quote, words, maxWords))
    decreases |line| - p, if start >= 0 then 1 else 0
  {
    if |words| + 1 >= maxWords {
    } else if Ends(line, p, start, quote) {
      var words' := if start >= 0 then words + [line[start..p]] else words;
      if p == |line| {
      } else if quote != '\0' {
        WordsAreUnquoted(line, p + 1, -1, '\0', words', maxWords);
      } else {
        WordsAreUnquoted(line, p, -1, '\0', words', maxWords);
      }
    } else if IsQuote(line[p]) {
      WordsAreUnquoted(line, p + 1, p + 1, line[p], words, maxWords);
    } else if start >= 0 {
      assert line[start..p + 1] == line[start..p] + [line[p]];
      WordsAreUnquoted(line, p + 1, start, quote, words, maxWords);
    } else if line[p] == '|' {
      WordsAreUnquoted(line, p + 1, -1, quote, words + ["|"], maxWords);
    } else {
      WordsAreUnquoted(line, p + 1, if IsSpace(line[p]) then -1 else p, quote, words, maxWords);
    }
  }

  /** The words found so far, and the one under way, would survive joining and splitting. */
  predicate Clean(words: seq<string>) {
    && (|words| > 0 ==> PlainText(words[0]))
    && forall i :: 1 <= i < |words| ==> words[i] == "|" || (words[i] != "" && PlainText(words[i]))
  }

  /** A line without quotes splits into words that survive joining and splitting. */
  lemma {:induction false} UnquotedLineSplits(line: string, p: nat, start: int, words: seq<string>, maxWords: nat)
    requires State(line, p, start, '\0') && Unquoted(line) && Clean(words) && |words| < maxWords
    requires if start >= 0 then PlainText(line[start..p]) && (|words| > 0 ==> start < p) else |words| > 0
    requires 2 <= maxWords
    ensures Splittable(Scan(line, p, start, '\0', words, maxWords), maxWords)
    decreases |line| - p, if start >= 0 then 1 else 0
  {
    if |words| + 1 >= maxWords {
    } else if Ends(line, p, start, '\0') {
      var words' := if start >= 0 then words + [line[start..p]] else words;
      if p < |line| {
        UnquotedLineSplits(line, p, -1, words', maxWords);
      }
    } else if start >= 0 {
      assert line[start..p + 1] == line[start..p] + [line[p]];
      UnquotedLineSplits(line, p + 1, start, words, maxWords);
    } else if line[p] == '|' {
      UnquotedLineSplits(line, p + 1, -1, words + ["|"], maxWords);
    } else {
      UnquotedLineSplits(line, p + 1, if IsSpace(line[p]) then -1 else p, words, maxWords);
    }
  }

  lemma {:induction false} JoinUnquoted(ws: seq<string>)
    requires AllUnquoted(ws)
    ensures Unquoted(Join(ws))
  {
    if |ws| > 1 {
      JoinUnquoted(ws[1..]);
    }
  }

  /** Splitting a joined line gives the words back exactly for splittable words. */
  lemma RoundTrip(ws: seq<string>, maxWords: nat)
    requires 2 <= maxWords
    ensures Parse(Join(ws), maxWords) == ws <==> Splittable(ws, maxWords)
  {
    if Splittable(ws, maxWords) {
      JoinThenParse(ws, maxWords);
    }
    if Parse(Join(ws), maxWords) == ws {
      WordsAreUnquoted(Join(ws), 0, 0, '\0', [], maxWords);
      JoinUnquoted(ws);
      UnquotedLineSplits(Join(ws), 0, 0, [], maxWords);
    }
  }

  /** How many words come out: at least one, and fewer than maxWords. */
  lemma {:induction false} ScanCounts(line: string, p: nat, start: int, quote: char, words: seq<string>, maxWords: nat)
    requires State(line, p, start, quote) && 2 <= maxWords && |words| < maxWords && (start >= 0 || words != [])
    ensures 1 <= |Scan(line, p, start, quote, words, maxWords)| < maxWords
    decreases |line| - p, if start >= 0 then 1 else 0
  {
    if |words| + 1 >= maxWords {
    } else if Ends(line, p, start, quote) {
      var words' := if start >= 0 then words + [line[start..p]] else words;
      if p == |line| {
      } else if quote != '\0' {
        ScanCounts(line, p + 1, -1, '\0', words', maxWords);
      } else {
        ScanCounts(line, p, -1, '\0', words', maxWords);
      }
    } else if IsQuote(line[p]) {
      ScanCounts(line, p + 1, p + 1, line[p], words, maxWords);
    } else if start >= 0 {
      ScanCounts(line, p + 1, start, quote, words, maxWords);
    } else if line[p] == '|' {
      ScanCounts(line, p + 1, -1, quote, words + ["|"], maxWords);
    } else {
      ScanCounts(line, p + 1, if IsSpace(line[p]) then -1 else p, quote, words, maxWords);
    }
  }

  /** Each word in quotes; the last one without its closing quote unless `closed`. */
  function QuoteAll(q: char, ws: seq<string>, closed: bool): (r: seq<string>)
    ensures |r| == |ws|
  {
    seq(|ws|, i requires 0 <= i < |ws| => [q] + ws[i] + if i + 1 < |ws| || closed then [q] else "")
  }

  lemma {:induction false} ScanInside(line: string, p: nat, k: nat, start: nat, q: char, words: seq<string>,
                                      maxWords: nat)
    requires IsQuote(q) && start <= p && p + k <= |line| && |words| + 1 < maxWords
    requires forall i :: p <= i < p + k ==> !IsQuote(line[i])
    ensures Scan(line, p, start, q, words, maxWords) == Scan(line, p + k, start, q, words, maxWords)
    decreases k
  {
    if k > 0 {
      ScanInside(line, p + 1, k - 1, start, q, words, maxWords);
    }
  }

  /** A quote that closes nothing opens a new word, whatever was under way. */
  lemma ScanOpens(line: string, p: nat, start: int, quote: char, words: seq<string>, maxWords: nat)
    requires State(line, p, start, quote) && p < |line| && IsQuote(line[p]) && line[p] != quote
    requires |words| + 1 < maxWords
    ensures Scan(line, p, start, quote, words, maxWords) == Scan(line, p + 1, p + 1, line[p], words, maxWords)
  {}

  /** The word in quotes ends at its closing quote, or at the end of the line. */
  lemma ScanCloses(line: string, p: nat, start: nat, q: char, words: seq<string>, maxWords: nat)
    requires IsQuote(q) && start <= p <= |line| && (p < |line| ==> line[p] == q) && |words| + 1 < maxWords
    ensures Scan(line, p, start, q, words, maxWords)
         == if p == |line| then words + [line[start..p]]
            else Scan(line, p + 1, -1, '\0', words + [line[start..p]], maxWords)
  {}

  /** From word i on, the rest of a line of quoted words splits into those words. */
  lemma {:induction false} QuotedRest(q: char, ws: seq<string>, closed: bool, i: nat, line: string, p: nat,
                                      start: int, maxWords: nat)
    requires IsQuote(q) && AllUnquoted(ws) && i < |ws| < maxWords && p <= |line| && (start == -1 || start == p)
    requires line[p..] == Join(QuoteAll(q, ws, closed)[i..])
    ensures Scan(line, p, start, '\0', ws[..i], maxWords) == ws
    decreases |ws| - i
  {
    hide Join, Scan;
    var w, e := ws[i], p + 1 + |ws[i]|;
    JoinFront(QuoteAll(q, ws, closed), i, line, p);
    var piece := QuoteAll(q, ws, closed)[i];
    assert piece[..|w| + 1] == [q] + w;
    assert line[p..p + |piece|][..|w| + 1] == line[p..e];
    assert line[p] == q && line[p + 1..e] == w;
    assert Unquoted(w);
    ScanOpens(line, p, start, '\0', ws[..i], maxWords);
    forall x | p + 1 <= x < e ensures !IsQuote(line[x]) { assert line[x] == w[x - (p + 1)]; }
    ScanInside(line, p + 1, |w|, p + 1, q, ws[..i], maxWords);
    assert ws[..i] + [w] == ws[..i + 1];
    if e == |line| {
      ScanCloses(line, e, p + 1, q, ws[..i], maxWords);
    } else {
      assert line[e] == piece[|w| + 1] == q;
      ScanCloses(line, e, p + 1, q, ws[..i], maxWords);
      QuotedNext(q, ws, closed, i, line, e + 1, maxWords);
    }
  }

  lemma {:induction false} QuotedNext(q: char, ws: seq<string>, closed: bool, i: nat, line: string, e: nat,
                                      maxWords: nat)
    requires IsQuote(q) && AllUnquoted(ws) && i < |ws| < maxWords && e <= |line|
    requires if i + 1 == |ws| then e == |line|
             else e < |line| && line[e] == ' ' && line[e + 1..] == Join(QuoteAll(q, ws, closed)[i + 1..])
    ensures Scan(line, e, -1, '\0', ws[..i + 1], maxWords) == ws
    decreases |ws| - i, 0
  {
    if i + 1 < |ws| {
      QuotedRest(q, ws, closed, i + 1, line, e + 1, -1, maxWords);
    } else {
      assert ws[..i + 1] == ws;
    }
  }

  /** Words in quotes come back exactly if they contain no quote of either kind and are few enough; an unclosed last
      quote takes the rest of the line. */
  lemma QuotedRoundTrip(q: char, ws: seq<string>, closed: bool, maxWords: nat)
    requires IsQuote(q) && 2 <= maxWords
    ensures Parse(Join(QuoteAll(q, ws, closed)), maxWords) == ws <==> 1 <= |ws| < maxWords && AllUnquoted(ws)
  {
    hide Join, Scan;
    var line := Join(QuoteAll(q, ws, closed));
    if 1 <= |ws| < maxWords && AllUnquoted(ws) {
      assert QuoteAll(q, ws, closed)[0..] == QuoteAll(q, ws, closed);
      QuotedRest(q, ws, closed, 0, line, 0, 0, maxWords);
      assert ws[..0] == [];
    }
    if Parse(line, maxWords) == ws {
      WordsAreUnquoted(line, 0, 0, '\0', [], maxWords);
      ScanCounts(line, 0, 0, '\0', [], maxWords);
    }
  }

  /** Text right before a quote is lost. */
  lemma QuoteTakesOver(a: string, q: char, b: string, maxWords: nat)
    requires PlainText(a) && IsQuote(q) && Unquoted(b) && 2 <= maxWords
    ensures Parse(a + [q] + b + [q], maxWords) == [b]
  {
    hide Scan;
    var line := a + [q] + b + [q];
    ScanPlain(line, 0, |a|, 0, [], maxWords);
    ScanOpens(line, |a|, 0, '\0', [], maxWords);
    OneQuoted(line, |a| + 1, b, q, maxWords);
  }

  /** A quote of the other kind inside a quoted word starts another word, and what came before it is lost. */
  lemma OtherQuoteTakesOver(q: char, a: string, r: char, b: string, maxWords: nat)
    requires IsQuote(q) && IsQuote(r) && q != r && Unquoted(a) && Unquoted(b) && 2 <= maxWords
    ensures Parse([q] + a + [r] + b + [r], maxWords) == [b]
  {
    hide Scan;
    var line := [q] + a + [r] + b + [r];
    ScanOpens(line, 0, 0, '\0', [], maxWords);
    ScanInside(line, 1, |a|, 1, q, [], maxWords);
    ScanOpens(line, |a| + 1, 1, q, [], maxWords);
    OneQuoted(line, |a| + 2, b, r, maxWords);
  }

  lemma OneQuoted(line: string, p: nat, b: string, q: char, maxWords: nat)
    requires IsQuote(q) && p <= |line| && line[p..] == b + [q] && Unquoted(b) && 2 <= maxWords
    ensures Scan(line, p, p, q, [], maxWords) == [b]
  {
    var e := p + |b|;
    assert line[p..e] == line[p..][..|b|] == b && line[e] == line[p..][|b|] == q;
    forall x | p <= x < e ensures !IsQuote(line[x]) { assert line[x] == b[x - p]; }
    ScanInside(line, p, |b|, p, q, [], maxWords);
    ScanCloses(line, e, p, q, [], maxWords);
    assert Scan(line, e + 1, -1, '\0', [b], maxWords) == [b];
    hide Scan;
  }

  /** Between two plain words, a character that is no quote and no bar separates them exactly if it is a blank, one of
      the codes 9 to 13 and 32. */
  lemma BlanksSeparate(a: string, c: char, b: string, maxWords: nat)
    requires PlainText(a) && PlainText(b) && b != "" && 3 <= maxWords && c !in {'"', '\'', '|'}
    ensures Parse(a + [c] + b, maxWords) == [a, b] <==> c as int == 32 || 9 <= c as int <= 13
  {
    var line := a + [c] + b;
    assert PlainChar(b[0]) && line[|a|] == c && line[|a| + 1] == b[0];
    if c as int == 32 || 9 <= c as int <= 13 {
      ScanPlain(line, 0, |a|, 0, [], maxWords);
      var p := |a| + 1;
      assert line[0..|a|] == a && line[p..] == b && PlainChar(line[p]) && [] + [a] == [a];
      hide Scan;
      WordEnds(line, |a|, 0, [], maxWords);
      BetweenWords(line, |a|, [a], maxWords);
      BetweenWords(line, p, [a], maxWords);
      LastPlain(line, p, [a], maxWords);
    } else {
      ScanPlain(line, 0, |line|, 0, [], maxWords);
      assert line[0..|line|] == line;
      assert Scan(line, |line|, 0, '\0', [], maxWords) == [line];
    }
  }

  lemma WordEnds(line: string, p: nat, start: nat, words: seq<string>, maxWords: nat)
    requires start <= p < |line| && (IsSpace(line[p]) || line[p] == '|') && |words| + 1 < maxWords
    ensures Scan(line, p, start, '\0', words, maxWords) == Scan(line, p, -1, '\0', words + [line[start..p]], maxWords)
  {}

  lemma BetweenWords(line: string, p: nat, words: seq<string>, maxWords: nat)
    requires p < |line| && !IsQuote(line[p]) && |words| + 1 < maxWords
    ensures Scan(line, p, -1, '\0', words, maxWords)
         == if line[p] == '|' then Scan(line, p + 1, -1, '\0', words + ["|"], maxWords)
            else Scan(line, p + 1, if IsSpace(line[p]) then -1 else p, '\0', words, maxWords)
  {}

  /** A plain word at the end of the line. */
  lemma LastPlain(line: string, p: nat, words: seq<string>, maxWords: nat)
    requires p < |line| && PlainText(line[p..]) && |words| + 1 < maxWords
    ensures Scan(line, p + 1, p, '\0', words, maxWords) == words + [line[p..]]
  {
    forall i | p <= i < |line| ensures PlainChar(line[i]) { assert line[i] == line[p..][i - p]; }
    ScanPlain(line, p + 1, |line| - p - 1, p, words, maxWords);
    assert line[p..|line|] == line[p..];
  }

  /** A bar is a word of its own, with or without blanks around it. */
  lemma BarStandsAlone(a: string, b: string, maxWords: nat)
    requires PlainText(a) && PlainText(b) && b != "" && 4 <= maxWords
    ensures Parse(a + "|" + b, maxWords) == [a, "|", b]
  {
    var line := a + "|" + b;
    assert PlainChar(b[0]) && line[|a|] == '|' && line[|a| + 1] == b[0];
    var p := |a| + 1;
    ScanPlain(line, 0, |a|, 0, [], maxWords);
    assert line[0..|a|] == a && line[p..] == b && PlainChar(line[p]) && [] + [a] == [a] && [a] + ["|"] == [a, "|"];
    hide Scan;
    WordEnds(line, |a|, 0, [], maxWords);
    BetweenWords(line, |a|, [a], maxWords);
    BetweenWords(line, p, [a, "|"], maxWords);
    LastPlain(line, p, [a, "|"], maxWords);
  }

  /** The codes 34 and 39 quote, and no others. */
  lemma QuotesAre(c: char, maxWords: nat)
    requires 2 <= maxWords
    ensures Parse([c] + "a b" + [c], maxWords) == ["a b"] <==> c as int == 34 || c as int == 39
  {
    var line := [c] + "a b" + [c];
    if c as int == 34 || c as int == 39 {
      QuoteTakesOver("", c, "a b", maxWords);
      assert "" + [c] + "a b" + [c] == line;
    } else {
      UnquotedLineSplits(line, 0, 0, [], maxWords);
      assert !PlainChar("a b"[1]) && !PlainText("a b");
    }
  }
}
