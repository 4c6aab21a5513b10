/**
 * The string splitting the shell is built on: C's strsep(3), one call at a
 * time, and the sequence of fields that repeated calls produce.  Strings are
 * sequences of characters; a delimiter set stands for strsep's `delim`
 * argument (any one of its characters ends a field).
 */
module Strsep {
  import opened Wrappers

  type String = seq<char>

  /** No character of s is a delimiter. */
  predicate NoDelim(s: String, delims: set<char>)
  {
    forall j :: 0 <= j < |s| ==> s[j] !in delims
  }

  /** Index of the first delimiter in s, or |s| when there is none. */
  function FirstDelim(s: String, delims: set<char>): (i: nat)
    ensures i <= |s|
    ensures forall j :: 0 <= j < i ==> s[j] !in delims
    ensures i < |s| ==> s[i] in delims
  {
    if |s| == 0 || s[0] in delims then 0 else 1 + FirstDelim(s[1..], delims)
  }

  /**
   * One call of strsep on a non-NULL string: the field up to the first
   * delimiter, and the new value of the string variable (the text after that
   * delimiter, or NULL when the string held no delimiter).
   */
  function StrSep(s: String, delims: set<char>): (r: (String, Option<String>))
    ensures NoDelim(r.0, delims)
    ensures r.1.None? ==> r.0 == s
    ensures r.1.Some? ==> |r.0| + 1 + |r.1.value| == |s|
  {
    var i := FirstDelim(s, delims);
    if i == |s| then
      assert s[..i] == s;
      (s, None)
    else
      (s[..i], Some(s[i + 1..]))
  }

  /** strsep sets the string variable to NULL exactly when the string holds no delimiter. */
  lemma StrSepNull(s: String, delims: set<char>)
    ensures StrSep(s, delims).1.None? <==> NoDelim(s, delims)
  {
    var i := FirstDelim(s, delims);
    if i < |s| {
      assert s[i] in delims;
    }
  }

  /** When strsep finds a delimiter, the string is the field, that delimiter, and the new string. */
  lemma StrSepParts(s: String, delims: set<char>)
    requires StrSep(s, delims).1.Some?
    ensures var r := StrSep(s, delims);
      s[|r.0|] in delims && s == r.0 + [s[|r.0|]] + r.1.value
  {
    var i := FirstDelim(s, delims);
    assert s == s[..i] + [s[i]] + s[i + 1..];
  }

  /** The fields that strsep returns, in order, until it returns NULL. */
  function Split(s: String, delims: set<char>): (r: seq<String>)
    ensures |r| >= 1
    decreases |s|
  {
    var step := StrSep(s, delims);
    if step.1.None? then [step.0] else [step.0] + Split(step.1.value, delims)
  }

  /** The fields strsep has yet to return when the string variable holds `rest`. */
  function Remaining(rest: Option<String>, delims: set<char>): seq<String>
  {
    if rest.Some? then Split(rest.value, delims) else []
  }

  /** The non-empty pieces, in their original order. */
  function NonEmpty(pieces: seq<String>): (r: seq<String>)
    ensures |r| <= |pieces|
    ensures forall k :: 0 <= k < |r| ==> r[k] != []
  {
    if pieces == [] then []
    else (if pieces[0] == [] then [] else [pieces[0]]) + NonEmpty(pieces[1..])
  }

  /** No field contains a delimiter. */
  lemma {:induction false} SplitFields(s: String, delims: set<char>)
    ensures forall k :: 0 <= k < |Split(s, delims)| ==> NoDelim(Split(s, delims)[k], delims)
    decreases |s|
  {
    var step := StrSep(s, delims);
    if step.1.Some? {
      SplitFields(step.1.value, delims);
      assert Split(s, delims) == [step.0] + Split(step.1.value, delims);
    }
  }

  /** NonEmpty keeps only pieces it was given. */
  lemma {:induction false} NonEmptyFrom(pieces: seq<String>)
    ensures forall k :: 0 <= k < |NonEmpty(pieces)| ==> NonEmpty(pieces)[k] in pieces
  {
    if pieces != [] {
      NonEmptyFrom(pieces[1..]);
      assert forall x :: x in pieces[1..] ==> x in pieces;
    }
  }

  /** One more strsep call: its field, then the fields still to come. */
  lemma RemainingStep(s: String, delims: set<char>)
    ensures Remaining(Some(s), delims) == [StrSep(s, delims).0] + Remaining(StrSep(s, delims).1, delims)
  {
  }

  /**
   * One more strsep call in a loop that keeps the non-empty fields: its
   * field joins those kept so far when it is non-empty, and the rest are
   * still to come.
   */
  lemma WordsStep(kept: seq<String>, s: String, delims: set<char>)
    ensures var step := StrSep(s, delims);
      kept + NonEmpty(Remaining(Some(s), delims)) ==
        (if |step.0| > 0 then kept + [step.0] else kept) + NonEmpty(Remaining(step.1, delims))
  {
    var step := StrSep(s, delims);
    var later := NonEmpty(Remaining(step.1, delims));
    RemainingStep(s, delims);
    NonEmptyAppend([step.0], Remaining(step.1, delims));
    assert [step.0][1..] == [];
    if |step.0| > 0 {
      assert kept + ([step.0] + later) == kept + [step.0] + later;
    } else {
      assert [] + later == later;
    }
  }

  /** The words of s: its non-empty fields. */
  function Tokens(s: String, delims: set<char>): (r: seq<String>)
    ensures forall k :: 0 <= k < |r| ==> r[k] != [] && NoDelim(r[k], delims)
  {
    SplitFields(s, delims);
    NonEmptyFrom(Split(s, delims));
    NonEmpty(Split(s, delims))
  }

  /** The pieces written out with one separator character between neighbours. */
  function Join(pieces: seq<String>, sep: char): String
  {
    if |pieces| == 0 then []
    else if |pieces| == 1 then pieces[0]
    else pieces[0] + [sep] + Join(pieces[1..], sep)
  }

  // ---------------------------------------------------------------------
  // Split: a character-level characterisation, independent of strsep.
  // ---------------------------------------------------------------------

  /** A string without delimiters is one field. */
  lemma SplitWord(w: String, delims: set<char>)
    requires NoDelim(w, delims)
    ensures Split(w, delims) == [w]
  {
  }

  /** The number of delimiter characters in s. */
  function DelimCount(s: String, delims: set<char>): nat
  {
    if s == [] then 0 else (if s[0] in delims then 1 else 0) + DelimCount(s[1..], delims)
  }

  /** Counting delimiters distributes over concatenation. */
  lemma {:induction false} DelimCountAppend(a: String, b: String, delims: set<char>)
    ensures DelimCount(a + b, delims) == DelimCount(a, delims) + DelimCount(b, delims)
  {
    if a == [] {
      assert a + b == b;
    } else {
      assert (a + b)[0] == a[0] && (a + b)[1..] == a[1..] + b;
      DelimCountAppend(a[1..], b, delims);
    }
  }

  /** A string without delimiters counts none. */
  lemma {:induction false} DelimCountNone(s: String, delims: set<char>)
    requires NoDelim(s, delims)
    ensures DelimCount(s, delims) == 0
  {
    if s != [] {
      assert NoDelim(s[1..], delims) by {
        forall j | 0 <= j < |s[1..]| ensures s[1..][j] !in delims {
          assert s[1..][j] == s[j + 1];
        }
      }
      DelimCountNone(s[1..], delims);
    }
  }

  /** strsep returns one field more than the string has delimiters, so empty fields are never lost. */
  lemma {:induction false} SplitCount(s: String, delims: set<char>)
    ensures |Split(s, delims)| == DelimCount(s, delims) + 1
    decreases |s|
  {
    var step := StrSep(s, delims);
    if step.1.None? {
      DelimCountNone(s, delims);
    } else {
      StrSepParts(s, delims);
      var c := s[|step.0|];
      DelimCountAppend(step.0 + [c], step.1.value, delims);
      DelimCountAppend(step.0, [c], delims);
      DelimCountNone(step.0, delims);
      assert [c][1..] == [];
      SplitCount(step.1.value, delims);
    }
  }

  /** Split in terms of the first delimiter: one field before it, the fields of the text after it. */
  lemma SplitFirst(s: String, delims: set<char>)
    ensures var i := FirstDelim(s, delims);
      Split(s, delims) == if i == |s| then [s] else [s[..i]] + Split(s[i + 1..], delims)
  {
    var i := FirstDelim(s, delims);
    if i == |s| {
      assert s[..i] == s;
      assert StrSep(s, delims) == (s, None);
    } else {
      assert StrSep(s, delims) == (s[..i], Some(s[i + 1..]));
    }
  }

  /** A delimiter appended after a ends the first field no later than a does. */
  lemma {:induction false} FirstDelimBefore(a: String, c: char, b: String, delims: set<char>)
    requires c in delims
    ensures FirstDelim(a + [c] + b, delims) == FirstDelim(a, delims)
    decreases |a|
  {
    if a != [] && a[0] !in delims {
      assert (a + [c] + b)[1..] == a[1..] + [c] + b;
      FirstDelimBefore(a[1..], c, b, delims);
    }
  }

  lemma Slices(a: String, c: char, b: String, i: nat)
    requires i <= |a|
    ensures (a + [c] + b)[..i] == a[..i]
    ensures i < |a| ==> (a + [c] + b)[i + 1..] == a[i + 1..] + [c] + b
    ensures i == |a| ==> (a + [c] + b)[i + 1..] == b
  {
  }

  /** Every delimiter ends exactly one field: splitting distributes over a delimiter. */
  lemma {:induction false} SplitAtDelim(a: String, c: char, b: String, delims: set<char>)
    requires c in delims
    ensures Split(a + [c] + b, delims) == Split(a, delims) + Split(b, delims)
    decreases |a|
  {
    var i := FirstDelim(a, delims);
    if i < |a| {
      var t := a[i + 1..];
      calc {
        Split(a + [c] + b, delims);
        { FirstDelimBefore(a, c, b, delims); Slices(a, c, b, i); SplitFirst(a + [c] + b, delims); }
        [a[..i]] + Split(t + [c] + b, delims);
        { SplitAtDelim(t, c, b, delims); }
        [a[..i]] + (Split(t, delims) + Split(b, delims));
        { SplitFirst(a, delims); }
        Split(a, delims) + Split(b, delims);
      }
    } else {
      calc {
        Split(a + [c] + b, delims);
        { FirstDelimBefore(a, c, b, delims); Slices(a, c, b, i); SplitFirst(a + [c] + b, delims);
          assert a[..i] == a; }
        [a] + Split(b, delims);
        { SplitFirst(a, delims); assert a[..i] == a; }
        Split(a, delims) + Split(b, delims);
      }
    }
  }

  /** Splitting a joined list of delimiter-free pieces gives the pieces back. */
  lemma {:induction false} SplitJoin(pieces: seq<String>, sep: char, delims: set<char>)
    requires |pieces| >= 1 && sep in delims
    requires forall k :: 0 <= k < |pieces| ==> NoDelim(pieces[k], delims)
    ensures Split(Join(pieces, sep), delims) == pieces
  {
    if |pieces| == 1 {
      SplitWord(pieces[0], delims);
    } else {
      SplitJoin(pieces[1..], sep, delims);
      SplitAtDelim(pieces[0], sep, Join(pieces[1..], sep), delims);
      SplitWord(pieces[0], delims);
      assert pieces == [pieces[0]] + pieces[1..];
    }
  }

  /** Joining the fields of s with its only delimiter rebuilds s. */
  lemma {:induction false} JoinSplit(s: String, sep: char)
    ensures Join(Split(s, {sep}), sep) == s
    decreases |s|
  {
    var step := StrSep(s, {sep});
    if step.1.Some? {
      StrSepParts(s, {sep});
      JoinSplit(step.1.value, sep);
      var rest := Split(step.1.value, {sep});
      assert Split(s, {sep}) == [step.0] + rest;
      assert s[|step.0|] == sep;
    }
  }

  // ---------------------------------------------------------------------
  // NonEmpty and Tokens
  // ---------------------------------------------------------------------

  lemma {:induction false} NonEmptyAppend(a: seq<String>, b: seq<String>)
    ensures NonEmpty(a + b) == NonEmpty(a) + NonEmpty(b)
  {
    if a == [] {
      assert a + b == b;
    } else {
      var head := if a[0] == [] then [] else [a[0]];
      calc {
        NonEmpty(a + b);
        { assert (a + b)[0] == a[0]; assert (a + b)[1..] == a[1..] + b; }
        head + NonEmpty(a[1..] + b);
        { NonEmptyAppend(a[1..], b); }
        head + (NonEmpty(a[1..]) + NonEmpty(b));
      }
    }
  }

  lemma {:induction false} NonEmptyKeepsAll(pieces: seq<String>)
    requires forall k :: 0 <= k < |pieces| ==> pieces[k] != []
    ensures NonEmpty(pieces) == pieces
  {
    if pieces != [] {
      NonEmptyKeepsAll(pieces[1..]);
    }
  }

  /** A delimiter between two parts of a line separates their words; a run of them adds none. */
  lemma TokensAtDelim(a: String, c: char, b: String, delims: set<char>)
    requires c in delims
    ensures Tokens(a + [c] + b, delims) == Tokens(a, delims) + Tokens(b, delims)
  {
    SplitAtDelim(a, c, b, delims);
    NonEmptyAppend(Split(a, delims), Split(b, delims));
  }

  /** A line made only of delimiters has no words. */
  lemma {:induction false} TokensBlank(s: String, delims: set<char>)
    requires forall j :: 0 <= j < |s| ==> s[j] in delims
    ensures Tokens(s, delims) == []
    decreases |s|
  {
    if s == [] {
      SplitWord(s, delims);
    } else {
      TokensBlank(s[1..], delims);
      TokensAtDelim([], s[0], s[1..], delims);
      SplitWord([], delims);
      assert [] + [s[0]] + s[1..] == s;
    }
  }

  /** Words written out with one delimiter between them are read back unchanged. */
  lemma TokensJoin(words: seq<String>, sep: char, delims: set<char>)
    requires |words| >= 1 && sep in delims
    requires forall k :: 0 <= k < |words| ==> words[k] != [] && NoDelim(words[k], delims)
    ensures Tokens(Join(words, sep), delims) == words
  {
    SplitJoin(words, sep, delims);
    NonEmptyKeepsAll(words);
  }

  /** A delimiter at either end of a line adds no word. */
  lemma TokensOuterDelim(c: char, s: String, delims: set<char>)
    requires c in delims
    ensures Tokens([c] + s, delims) == Tokens(s, delims)
    ensures Tokens(s + [c], delims) == Tokens(s, delims)
  {
    TokensAtDelim([], c, s, delims);
    TokensAtDelim(s, c, [], delims);
    SplitWord([], delims);
    assert [] + [c] + s == [c] + s;
    assert s + [c] + [] == s + [c];
  }

  /** The line `  echo   hi  ` has the words `echo` and `hi`: surrounding and repeated blanks vanish. */
  lemma TokensExample(ws: set<char>)
    requires ' ' in ws
    requires 'e' !in ws && 'c' !in ws && 'h' !in ws && 'o' !in ws && 'i' !in ws
    ensures Tokens("  " + "echo" + "   " + "hi" + "  ", ws) == ["echo", "hi"]
  {
    var sp := [' '];
    var hi := sp + (sp + "hi");
    var mid := "echo" + sp + hi;
    calc {
      Tokens("  " + "echo" + "   " + "hi" + "  ", ws);
      { assert "  " + "echo" + "   " + "hi" + "  " == sp + (sp + mid) + sp + sp; }
      Tokens(sp + (sp + mid) + sp + sp, ws);
      { TokensOuterDelim(' ', sp + (sp + mid) + sp, ws); TokensOuterDelim(' ', sp + (sp + mid), ws); }
      Tokens(sp + (sp + mid), ws);
      { TokensOuterDelim(' ', sp + mid, ws); TokensOuterDelim(' ', mid, ws); }
      Tokens(mid, ws);
      { TokensAtDelim("echo", ' ', hi, ws); }
      Tokens("echo", ws) + Tokens(hi, ws);
      { TokensOuterDelim(' ', sp + "hi", ws); TokensOuterDelim(' ', "hi", ws); }
      Tokens("echo", ws) + Tokens("hi", ws);
      { assert NoDelim("echo", ws) && NoDelim("hi", ws);
        TokensJoin(["echo"], ' ', ws); TokensJoin(["hi"], ' ', ws); }
      ["echo", "hi"];
    }
  }
}
