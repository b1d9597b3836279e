/**
 The search expression sent to PubMed: one title-or-abstract clause per
 keyword, joined with AND, followed by AND and a publication-date range.
 The two dates come from the clock in the program, so they are parameters
 here.
 */
module Query {
  import opened Joining
  import opened Whitespace

  const Conjunction := " AND "

  /** The required-phrase clause for one keyword: `(tok[Title/Abstract])`. */
  function Clause(tok: string): string
  {
    "(" + tok + "[Title/Abstract])"
  }

  /** The publication-date range: `(start[PDAT] : end[PDAT])`. */
  function DateClause(startDate: string, endDate: string): string
  {
    "(" + startDate + "[PDAT] : " + endDate + "[PDAT])"
  }

  /** One clause per token, in token order. */
  function Clauses(tokens: seq<string>): seq<string>
  {
    seq(|tokens|, i requires 0 <= i < |tokens| => Clause(tokens[i]))
  }

  /**
   The list comprehension over the keyword words: each word is stripped, and
   a word whose strip is empty contributes no clause.
   */
  function Terms(words: seq<string>): (ts: seq<string>)
    ensures |ts| <= |words|
  {
    if words == [] then []
    else
      var w := Strip(words[0]);
      (if w != [] then [Clause(w)] else []) + Terms(words[1..])
  }

  /**
   The whole query. With no keyword tokens it is the conjunction followed by
   the date clause (note the leading " AND "); otherwise every clause is
   followed by its own " AND ", and the date clause closes the query.
   */
  function BuildQuery(keywords: string, startDate: string, endDate: string): (q: string)
    ensures Split(keywords) == [] ==> q == Conjunction + DateClause(startDate, endDate)
    ensures Split(keywords) != [] ==>
              q == Concat(Terminate(Clauses(Split(keywords)), Conjunction)) + DateClause(startDate, endDate)
  {
    var tokens := Split(keywords);
    TermsOfWords(tokens);
    ConjunctionTerminates(Clauses(tokens));
    Join(Conjunction, Terms(tokens)) + Conjunction + DateClause(startDate, endDate)
  }

  lemma ConjunctionTerminates(clauses: seq<string>)
    ensures clauses != [] ==> Join(Conjunction, clauses) + Conjunction == Concat(Terminate(clauses, Conjunction))
  {
    if clauses != [] {
      JoinThenSeparator(Conjunction, clauses);
    }
  }

  /** Strip in the comprehension never changes or drops a token that split produced. */
  lemma {:induction false} TermsOfWords(words: seq<string>)
    requires forall k :: 0 <= k < |words| ==> IsWord(words[k])
    ensures Terms(words) == Clauses(words)
  {
    if words != [] {
      var rest := words[1..];
      assert forall k :: 0 <= k < |rest| ==> IsWord(rest[k]) by {
        forall k | 0 <= k < |rest| ensures IsWord(rest[k]) {
          assert rest[k] == words[k + 1];
        }
      }
      TermsOfWords(rest);
      TermsOfWord(words);
      ClausesCons(words);
    }
  }

  /** A leading word contributes its own clause to the comprehension. */
  lemma TermsOfWord(words: seq<string>)
    requires words != [] && IsWord(words[0])
    ensures Terms(words) == [Clause(words[0])] + Terms(words[1..])
  {
    StripWord(words[0]);
  }

  lemma ClausesCons(tokens: seq<string>)
    requires tokens != []
    ensures Clauses(tokens) == [Clause(tokens[0])] + Clauses(tokens[1..])
  {
    var cs := Clauses(tokens);
    assert cs[0] == Clause(tokens[0]);
    assert cs[1..] == Clauses(tokens[1..]);
  }

  lemma StripWord(w: string)
    requires IsWord(w)
    ensures Strip(w) == w
  {
    assert [] + w + [] == w;
    StripPadded([], w, []);
  }

  /** The keywords are stripped before they are stored; the query does not change. */
  lemma QueryIgnoresStrip(keywords: string, startDate: string, endDate: string)
    ensures BuildQuery(Strip(keywords), startDate, endDate) == BuildQuery(keywords, startDate, endDate)
  {
    SplitOfStrip(keywords);
  }

  /** The date clause read as whitespace-separated words. */
  function DateWords(startDate: string, endDate: string): seq<string>
  {
    ["(" + startDate + "[PDAT]", ":", endDate + "[PDAT])"]
  }

  /** Clause, AND, clause, AND, ...: each token's clause followed by the word AND. */
  function Interleave(tokens: seq<string>): (ws: seq<string>)
    ensures |ws| == 2 * |tokens|
  {
    if tokens == [] then [] else [Clause(tokens[0]), "AND"] + Interleave(tokens[1..])
  }

  /** Position 2i holds the clause of token i and position 2i + 1 the word AND. */
  lemma {:induction false} InterleaveAt(tokens: seq<string>, i: nat)
    requires i < |tokens|
    ensures Interleave(tokens)[2 * i] == Clause(tokens[i])
    ensures Interleave(tokens)[2 * i + 1] == "AND"
  {
    if i > 0 {
      InterleaveAt(tokens[1..], i - 1);
      var ws := Interleave(tokens);
      assert ws == [Clause(tokens[0]), "AND"] + Interleave(tokens[1..]);
      assert ws[2 * i] == Interleave(tokens[1..])[2 * (i - 1)];
      assert ws[2 * i + 1] == Interleave(tokens[1..])[2 * (i - 1) + 1];
    }
  }

  /**
   Read as whitespace-separated words, the query is each keyword token's
   clause followed by AND, in token order, then the three words of the date
   clause; with no tokens a lone AND stands in front of the date clause.
   */
  lemma QueryWords(keywords: string, startDate: string, endDate: string)
    requires NoSpace(startDate) && NoSpace(endDate)
    ensures var tokens := Split(keywords);
            var ws := Split(BuildQuery(keywords, startDate, endDate));
            && (tokens == [] ==> ws == ["AND"] + DateWords(startDate, endDate))
            && (tokens != [] ==>
                  && |ws| == 2 * |tokens| + 3
                  && (forall i :: 0 <= i < |tokens| ==> ws[2 * i] == Clause(tokens[i]) && ws[2 * i + 1] == "AND")
                  && ws[2 * |tokens|..] == DateWords(startDate, endDate))
  {
    var tokens := Split(keywords);
    var d := DateClause(startDate, endDate);
    DateClauseWords(startDate, endDate);
    if tokens == [] {
      LoneConjunctionWords(d);
    } else {
      TerminatedClausesWords(tokens, d);
      InterleavedWords(tokens, DateWords(startDate, endDate));
    }
  }

  /** The conjunction in front of a text splits off as the single word AND. */
  lemma LoneConjunctionWords(d: string)
    ensures Split(Conjunction + d) == ["AND"] + Split(d)
  {
    ConstantWords();
    SplitWord("AND");
    SplitAtSpace([], ' ', "AND" + [' '] + d);
    SplitAtSpace("AND", ' ', d);
    assert Conjunction + d == [] + [' '] + ("AND" + [' '] + d);
    assert Split([]) == [];
  }

  /** Where the clauses, the ANDs and the trailing words sit in Interleave(tokens) + ds. */
  lemma InterleavedWords(tokens: seq<string>, ds: seq<string>)
    ensures var ws := Interleave(tokens) + ds;
            && |ws| == 2 * |tokens| + |ds|
            && (forall i :: 0 <= i < |tokens| ==> ws[2 * i] == Clause(tokens[i]) && ws[2 * i + 1] == "AND")
            && ws[2 * |tokens|..] == ds
  {
    var ws := Interleave(tokens) + ds;
    forall i | 0 <= i < |tokens|
      ensures ws[2 * i] == Clause(tokens[i]) && ws[2 * i + 1] == "AND"
    {
      InterleaveAt(tokens, i);
    }
    assert ws[2 * |tokens|..] == ds;
  }

  lemma NoSpaceAppend(x: string, y: string)
    requires NoSpace(x) && NoSpace(y)
    ensures NoSpace(x + y)
  {
    assert forall i :: 0 <= i < |x + y| ==> (x + y)[i] == if i < |x| then x[i] else y[i - |x|];
  }

  /** The fixed pieces of the query templates hold no whitespace. */
  lemma ConstantWords()
    ensures NoSpace("(") && NoSpace("[PDAT]") && NoSpace("[PDAT])") && NoSpace("[Title/Abstract])")
    ensures IsWord("AND") && IsWord(":")
  {
  }

  /** Words of the date clause, for whitespace-free dates. */
  lemma DateClauseWords(startDate: string, endDate: string)
    requires NoSpace(startDate) && NoSpace(endDate)
    ensures Split(DateClause(startDate, endDate)) == DateWords(startDate, endDate)
  {
    var a, b := "(" + startDate + "[PDAT]", endDate + "[PDAT])";
    assert DateClause(startDate, endDate) == a + [' '] + (":" + [' '] + b);
    SplitAtSpace(a, ' ', ":" + [' '] + b);
    SplitAtSpace(":", ' ', b);
    ConstantWords();
    NoSpaceAppend("(", startDate);
    NoSpaceAppend("(" + startDate, "[PDAT]");
    NoSpaceAppend(endDate, "[PDAT])");
    SplitWord(a);
    SplitWord(":");
    SplitWord(b);
  }

  /** A clause of a whitespace-free token is one word. */
  lemma ClauseIsWord(tok: string)
    requires NoSpace(tok)
    ensures IsWord(Clause(tok))
  {
    ConstantWords();
    NoSpaceAppend("(", tok);
    NoSpaceAppend("(" + tok, "[Title/Abstract])");
  }

  lemma {:induction false} TerminatedClausesWords(tokens: seq<string>, d: string)
    requires forall k :: 0 <= k < |tokens| ==> IsWord(tokens[k])
    ensures Split(Concat(Terminate(Clauses(tokens), Conjunction)) + d) == Interleave(tokens) + Split(d)
  {
    if tokens == [] {
      NoClausesWords(tokens, d);
    } else {
      var rest := tokens[1..];
      assert forall k :: 0 <= k < |rest| ==> IsWord(rest[k]) by {
        forall k | 0 <= k < |rest| ensures IsWord(rest[k]) {
          assert rest[k] == tokens[k + 1];
        }
      }
      TerminatedClausesWords(rest, d);
      MoreClausesWords(tokens, d);
    }
  }

  /** One more token in front adds its clause and AND in front of the words. */
  lemma MoreClausesWords(tokens: seq<string>, d: string)
    requires tokens != [] && IsWord(tokens[0])
    requires Split(Concat(Terminate(Clauses(tokens[1..]), Conjunction)) + d) == Interleave(tokens[1..]) + Split(d)
    ensures Split(Concat(Terminate(Clauses(tokens), Conjunction)) + d) == Interleave(tokens) + Split(d)
  {
    var c := Clause(tokens[0]);
    ClauseIsWord(tokens[0]);
    FirstClauseWords(tokens, d);
    PrependPair(
      Split(Concat(Terminate(Clauses(tokens), Conjunction)) + d),
      Split(Concat(Terminate(Clauses(tokens[1..]), Conjunction)) + d),
      Interleave(tokens), Interleave(tokens[1..]), Split(d), c);
  }

  lemma PrependPair(whole: seq<string>, tail: seq<string>, il: seq<string>, il': seq<string>, ds: seq<string>, c: string)
    requires whole == [c, "AND"] + tail && tail == il' + ds
    requires il == [c, "AND"] + il'
    ensures whole == il + ds
  {
  }

  lemma NoClausesWords(tokens: seq<string>, d: string)
    requires tokens == []
    ensures Split(Concat(Terminate(Clauses(tokens), Conjunction)) + d) == Interleave(tokens) + Split(d)
  {
    assert Terminate(Clauses(tokens), Conjunction) == [];
    assert Concat([]) + d == d;
    assert Interleave(tokens) == [];
  }

  /** The words of the first terminated clause come first, then those of the rest. */
  lemma FirstClauseWords(tokens: seq<string>, d: string)
    requires tokens != [] && IsWord(Clause(tokens[0]))
    ensures Split(Concat(Terminate(Clauses(tokens), Conjunction)) + d)
         == [Clause(tokens[0]), "AND"] + Split(Concat(Terminate(Clauses(tokens[1..]), Conjunction)) + d)
  {
    var c := Clause(tokens[0]);
    var tail := Concat(Terminate(Clauses(tokens[1..]), Conjunction));
    var x := Concat(Terminate(Clauses(tokens), Conjunction));
    TerminatedClausesStep(tokens);
    assert x == c + Conjunction + tail;
    assert x + d == c + Conjunction + (tail + d);
    SplitWordAnd(c, tail + d);
  }

  /** The first token's terminated clause comes first, then the rest's. */
  lemma TerminatedClausesStep(tokens: seq<string>)
    requires tokens != []
    ensures Concat(Terminate(Clauses(tokens), Conjunction))
         == Clause(tokens[0]) + Conjunction + Concat(Terminate(Clauses(tokens[1..]), Conjunction))
  {
    var ts := Terminate(Clauses(tokens), Conjunction);
    assert ts[0] == Clause(tokens[0]) + Conjunction;
    assert ts[1..] == Terminate(Clauses(tokens[1..]), Conjunction);
  }

  /** A word followed by " AND " splits off as that word and AND. */
  lemma SplitWordAnd(c: string, rest: string)
    requires IsWord(c)
    ensures Split(c + Conjunction + rest) == [c, "AND"] + Split(rest)
  {
    assert c + Conjunction + rest == c + [' '] + ("AND" + [' '] + rest);
    ConstantWords();
    SplitWord(c);
    SplitWord("AND");
    SplitAtSpace(c, ' ', "AND" + [' '] + rest);
    SplitAtSpace("AND", ' ', rest);
  }
}
