/**
 * `parseInputData`: the free-text sample typed into the page becomes a list of
 * numbers. Commas, semicolons and newlines are first replaced by spaces, the
 * text is split on runs of JavaScript whitespace (`split(/\s+/)`), empty
 * pieces are dropped, each remaining piece goes through `parseFloat`, and the
 * pieces that give NaN are dropped.
 *
 * `parseFloat` is a parameter `pf` of type `string -> Option<real>`, with
 * `None` standing for NaN; nothing is assumed about it.
 */
module InputParser {

  datatype Option<T> = None | Some(value: T)

  /** JavaScript `\s`: the WhiteSpace and LineTerminator code points. */
  predicate IsWhitespace(c: char)
  {
    || ('\U{0009}' <= c <= '\U{000D}')
    || c == '\U{0020}' || c == '\U{00A0}' || c == '\U{1680}'
    || ('\U{2000}' <= c <= '\U{200A}')
    || c == '\U{2028}' || c == '\U{2029}' || c == '\U{202F}' || c == '\U{205F}'
    || c == '\U{3000}' || c == '\U{FEFF}'
  }

  /** The characters matched by `/[,;\n]/`. */
  predicate IsSeparator(c: char)
  {
    c == ',' || c == ';' || c == '\n'
  }

  /** A character that ends a number in the input: a separator or whitespace. */
  predicate IsBlank(c: char)
  {
    IsSeparator(c) || IsWhitespace(c)
  }

  /** `s` holds no whitespace character. */
  predicate NoWhitespace(s: string)
  {
    forall i :: 0 <= i < |s| ==> !IsWhitespace(s[i])
  }

  /** Every character of `s` is whitespace. */
  predicate AllWhitespace(s: string)
  {
    forall i :: 0 <= i < |s| ==> IsWhitespace(s[i])
  }

  /** `s` holds no separator and no whitespace character. */
  predicate NoBlank(s: string)
  {
    forall i :: 0 <= i < |s| ==> !IsBlank(s[i])
  }

  /**
   * `input.replace(/[,;\n]/g, ' ')`: after it, a position holds whitespace
   * exactly where the input held a separator or whitespace, and every other
   * character is kept as it was.
   */
  function Clean(s: string): (r: string)
    ensures |r| == |s|
    ensures forall i :: 0 <= i < |s| ==> (IsWhitespace(r[i]) <==> IsBlank(s[i]))
    ensures forall i :: 0 <= i < |s| && !IsBlank(s[i]) ==> r[i] == s[i]
  {
    seq(|s|, i requires 0 <= i < |s| => if IsSeparator(s[i]) then ' ' else s[i])
  }

  /** Drops the run of whitespace at the front of `s`. */
  function DropWhitespace(s: string): (r: string)
    ensures |r| <= |s|
    ensures s != [] && IsWhitespace(s[0]) ==> |r| < |s|
    ensures r == [] || !IsWhitespace(r[0])
  {
    if s != [] && IsWhitespace(s[0]) then DropWhitespace(s[1..]) else s
  }

  /** DropWhitespace removes a prefix of `s`, and that prefix is all whitespace. */
  lemma {:induction false} DropWhitespaceSuffix(s: string)
    ensures var r := DropWhitespace(s);
      r == s[|s| - |r|..] && AllWhitespace(s[..|s| - |r|])
  {
    if s != [] && IsWhitespace(s[0]) {
      var t := s[1..];
      var r := DropWhitespace(t);
      DropWhitespaceSuffix(t);
      var k := |t| - |r|;
      assert t[k..] == s[k + 1..];
      var front, rest := s[..k + 1], t[..k];
      forall i | 0 <= i < |front|
        ensures IsWhitespace(front[i])
      {
        if i > 0 {
          assert front[i] == rest[i - 1];
        }
      }
    }
  }

  /**
   * `s.split(/\s+/)`: the pieces between maximal runs of whitespace. A run at
   * the front or the back yields an empty first or last piece, and the empty
   * string splits into one empty piece.
   */
  function Split(s: string): (r: seq<string>)
    ensures 1 <= |r| <= |s| + 1
    decreases |s|
  {
    if s == [] then [[]]
    else if IsWhitespace(s[0]) then [[]] + Split(DropWhitespace(s))
    else
      var rest := Split(s[1..]);
      [[s[0]] + rest[0]] + rest[1..]
  }

  /** No piece of a split holds whitespace. */
  lemma {:induction false} SplitPiecesNoWhitespace(s: string)
    ensures forall k :: 0 <= k < |Split(s)| ==> NoWhitespace(Split(s)[k])
    decreases |s|
  {
    if s == [] {
    } else if IsWhitespace(s[0]) {
      SplitPiecesNoWhitespace(DropWhitespace(s));
    } else {
      SplitPiecesNoWhitespace(s[1..]);
      var rest := Split(s[1..]);
      assert NoWhitespace([s[0]] + rest[0]);
    }
  }

  /**
   * `.filter(val => val !== '')`: the empty pieces go, and every other piece
   * stays as often as it occurs (the order is `NonEmptyAppend`).
   */
  function NonEmpty(pieces: seq<string>): (r: seq<string>)
    ensures forall k :: 0 <= k < |r| ==> r[k] != [] && r[k] in pieces
    ensures forall p :: p in pieces && p != [] ==> p in r
    ensures forall p :: p != [] ==> multiset(r)[p] == multiset(pieces)[p]
  {
    if pieces == [] then []
    else
      assert pieces == [pieces[0]] + pieces[1..];
      if pieces[0] == [] then NonEmpty(pieces[1..])
      else [pieces[0]] + NonEmpty(pieces[1..])
  }

  /** The filter keeps the pieces in order: filtering two lists one after the other is filtering their concatenation. */
  lemma {:induction false} NonEmptyAppend(a: seq<string>, b: seq<string>)
    ensures NonEmpty(a + b) == NonEmpty(a) + NonEmpty(b)
  {
    if a == [] {
      assert a + b == b;
    } else {
      assert (a + b)[0] == a[0];
      assert (a + b)[1..] == a[1..] + b;
      NonEmptyAppend(a[1..], b);
    }
  }

  /** The non-empty, whitespace-free pieces of `s`, in order. */
  function Tokens(s: string): (r: seq<string>)
    ensures forall k :: 0 <= k < |r| ==> r[k] != [] && NoWhitespace(r[k])
  {
    SplitPiecesNoWhitespace(s);
    NonEmpty(Split(s))
  }

  /**
   * `.map(val => parseFloat(val)).filter(val => !isNaN(val))`: every number
   * comes from a token, and every token that parses gives its number (the
   * order is `KeepNumbersAppend`).
   */
  function KeepNumbers(tokens: seq<string>, pf: string -> Option<real>): (r: seq<real>)
    ensures |r| <= |tokens|
    ensures forall x :: x in r ==> exists t :: t in tokens && pf(t) == Some(x)
    ensures forall t :: t in tokens && pf(t).Some? ==> pf(t).value in r
  {
    if tokens == [] then []
    else
      var rest := KeepNumbers(tokens[1..], pf);
      assert forall t :: t in tokens[1..] ==> t in tokens;
      assert forall t :: t in tokens ==> t == tokens[0] || t in tokens[1..];
      match pf(tokens[0])
      case None => rest
      case Some(x) => [x] + rest
  }

  /** Numbers come out in token order: the numbers of `a + b` are those of `a` followed by those of `b`. */
  lemma {:induction false} KeepNumbersAppend(a: seq<string>, b: seq<string>, pf: string -> Option<real>)
    ensures KeepNumbers(a + b, pf) == KeepNumbers(a, pf) + KeepNumbers(b, pf)
  {
    if a == [] {
      assert a + b == b;
    } else {
      assert (a + b)[0] == a[0];
      assert (a + b)[1..] == a[1..] + b;
      KeepNumbersAppend(a[1..], b, pf);
    }
  }

  /**
   * `parseInputData(input)`. Every number it yields is what `parseFloat` made
   * of a non-empty token holding no separator and no whitespace, and every
   * token that `parseFloat` reads gives its number.
   */
  function ParseInputData(input: string, pf: string -> Option<real>): (r: seq<real>)
    ensures |r| <= |input|
    ensures forall x :: x in r ==>
      exists t :: t in Tokens(Clean(input)) && t != [] && NoWhitespace(t) && pf(t) == Some(x)
    ensures forall t :: t in Tokens(Clean(input)) && pf(t).Some? ==> pf(t).value in r
  {
    var tokens := Tokens(Clean(input));
    TokensCount(Clean(input));
    KeepNumbers(tokens, pf)
  }

  /** There are never more tokens than characters. */
  lemma {:induction false} TokensCount(s: string)
    ensures |Tokens(s)| <= |s|
  {
    SplitNonEmptyCount(s);
  }

  /** There are never more non-empty pieces than characters. */
  lemma {:induction false} SplitNonEmptyCount(s: string)
    ensures |NonEmpty(Split(s))| <= |s|
    decreases |s|
  {
    if s == [] {
    } else if IsWhitespace(s[0]) {
      SplitNonEmptyCount(DropWhitespace(s));
      assert Split(s) == [[]] + Split(DropWhitespace(s));
      assert NonEmpty(Split(s)) == NonEmpty(Split(DropWhitespace(s)));
    } else {
      var rest := Split(s[1..]);
      SplitNonEmptyCount(s[1..]);
      var r := Split(s);
      assert r == [[s[0]] + rest[0]] + rest[1..];
      assert r[1..] == rest[1..];
      assert rest == [rest[0]] + rest[1..];
      if rest[0] == [] {
        assert NonEmpty(rest) == NonEmpty(rest[1..]);
      } else {
        assert NonEmpty(rest) == [rest[0]] + NonEmpty(rest[1..]);
      }
    }
  }

  /** `a` and `b` differ only where both hold whitespace (possibly different whitespace). */
  predicate SameUpToWhitespace(a: string, b: string)
  {
    |a| == |b| && forall i :: 0 <= i < |a| ==> a[i] == b[i] || (IsWhitespace(a[i]) && IsWhitespace(b[i]))
  }

  /** Dropping leading whitespace keeps two such strings in step. */
  lemma {:induction false} DropWhitespaceSame(a: string, b: string)
    requires SameUpToWhitespace(a, b)
    ensures SameUpToWhitespace(DropWhitespace(a), DropWhitespace(b))
  {
    if a != [] && IsWhitespace(a[0]) {
      assert SameUpToWhitespace(a[1..], b[1..]);
      DropWhitespaceSame(a[1..], b[1..]);
    } else if a != [] {
      assert !IsWhitespace(b[0]);
    }
  }

  /** Splitting does not see which whitespace character stands where. */
  lemma {:induction false} SplitSame(a: string, b: string)
    requires SameUpToWhitespace(a, b)
    ensures Split(a) == Split(b)
    decreases |a|
  {
    if a == [] {
    } else if IsWhitespace(a[0]) {
      assert IsWhitespace(b[0]);
      DropWhitespaceSame(a, b);
      SplitSame(DropWhitespace(a), DropWhitespace(b));
    } else {
      assert a[0] == b[0];
      assert SameUpToWhitespace(a[1..], b[1..]);
      SplitSame(a[1..], b[1..]);
    }
  }

  /**
   * Comma, semicolon, newline and every whitespace character separate numbers
   * in the same way: inputs that differ only in which of them stands where
   * parse to the same numbers (so "1,2", "1; 2" and "1\n2" all parse alike).
   */
  lemma BlanksInterchangeable(a: string, b: string, pf: string -> Option<real>)
    requires |a| == |b|
    requires forall i :: 0 <= i < |a| ==> a[i] == b[i] || (IsBlank(a[i]) && IsBlank(b[i]))
    ensures ParseInputData(a, pf) == ParseInputData(b, pf)
  {
    var ca, cb := Clean(a), Clean(b);
    forall i | 0 <= i < |ca|
      ensures ca[i] == cb[i] || (IsWhitespace(ca[i]) && IsWhitespace(cb[i]))
    {
      if !IsBlank(a[i]) {
        assert a[i] == b[i];
      }
    }
    SplitSame(ca, cb);
  }

  /** `words.join(sep)`: the words in order, with `sep` between neighbours. */
  function Join(words: seq<string>, sep: string): (r: string)
    ensures words != [] ==> |words[0]| <= |r| && r[..|words[0]|] == words[0]
  {
    if words == [] then []
    else if |words| == 1 then words[0]
    else words[0] + sep + Join(words[1..], sep)
  }

  /** A word followed by more text: the word opens the first piece. */
  lemma {:induction false} SplitWordFirst(w: string, t: string)
    requires NoWhitespace(w)
    ensures var r := Split(t); Split(w + t) == [w + r[0]] + r[1..]
    decreases |w|
  {
    if w != [] {
      var r := Split(t);
      assert (w + t)[0] == w[0] && !IsWhitespace(w[0]);
      assert (w + t)[1..] == w[1..] + t;
      SplitWordFirst(w[1..], t);
      assert Split(w[1..] + t) == [w[1..] + r[0]] + r[1..];
      assert [w[0]] + (w[1..] + r[0]) == w + r[0];
    } else {
      assert w + t == t;
      var r := Split(t);
      assert w + r[0] == r[0];
      assert r == [r[0]] + r[1..];
    }
  }

  /** A run of whitespace followed by a word (or nothing) closes the current piece. */
  lemma WhitespaceThenWord(sep: string, t: string)
    requires sep != [] && AllWhitespace(sep)
    requires t == [] || !IsWhitespace(t[0])
    ensures DropWhitespace(sep + t) == t
    decreases |sep|
  {
    assert (sep + t)[0] == sep[0];
    if |sep| > 1 {
      assert (sep + t)[1..] == sep[1..] + t;
      WhitespaceThenWord(sep[1..], t);
    } else {
      assert (sep + t)[1..] == t;
    }
  }

  /** A non-empty word with no blank in it parses back from its join with any whitespace separator. */
  lemma {:induction false} TokensOfJoin(words: seq<string>, sep: string)
    requires forall k :: 0 <= k < |words| ==> words[k] != [] && NoWhitespace(words[k])
    requires sep != [] && AllWhitespace(sep)
    ensures Tokens(Join(words, sep)) == words
  {
    if words == [] {
    } else if |words| == 1 {
      TokensOfWord(words[0]);
    } else {
      var w, rest := words[0], Join(words[1..], sep);
      TokensOfJoin(words[1..], sep);
      assert Join(words, sep) == w + (sep + rest);
      JoinStartsWithWord(words[1..], sep);
      TokensWordThenRest(w, sep, rest);
    }
  }

  /** A non-empty word without whitespace is a single token. */
  lemma TokensOfWord(w: string)
    requires w != [] && NoWhitespace(w)
    ensures Tokens(w) == [w]
  {
    SplitWordFirst(w, []);
    assert w + [] == w;
    assert Split(w) == [w];
    assert NonEmpty([w]) == [w] + NonEmpty([]);
  }

  /** A word, a whitespace run and the rest: the word is the first token and the rest gives the others. */
  lemma TokensWordThenRest(w: string, sep: string, rest: string)
    requires w != [] && NoWhitespace(w)
    requires sep != [] && AllWhitespace(sep)
    requires rest == [] || !IsWhitespace(rest[0])
    ensures Tokens(w + (sep + rest)) == [w] + Tokens(rest)
  {
    SplitWordFirst(w, sep + rest);
    WhitespaceThenWord(sep, rest);
    var r := Split(sep + rest);
    assert r == [[]] + Split(rest);
    assert w + r[0] == w;
    var pieces := Split(w + (sep + rest));
    assert pieces == [w] + Split(rest);
    assert pieces[0] == w && pieces[1..] == Split(rest);
  }

  /** A join of non-empty whitespace-free words starts with the first word's first character. */
  lemma JoinStartsWithWord(words: seq<string>, sep: string)
    requires words != [] && words[0] != []
    ensures Join(words, sep) != [] && Join(words, sep)[0] == words[0][0]
  {
  }

  /** Replacing separators by spaces does not touch a join of blank-free words. */
  lemma {:induction false} CleanJoin(words: seq<string>, sep: string)
    requires forall k :: 0 <= k < |words| ==> NoBlank(words[k])
    ensures Clean(Join(words, sep)) == Join(words, Clean(sep))
  {
    if |words| > 1 {
      var rest := Join(words[1..], sep);
      CleanJoin(words[1..], sep);
      CleanAppend(words[0], sep + rest);
      CleanAppend(sep, rest);
      CleanKeepsWord(words[0]);
      assert Join(words, sep) == words[0] + (sep + rest);
    } else if |words| == 1 {
      CleanKeepsWord(words[0]);
    }
  }

  /** A text with no separator and no whitespace comes out of `replace` unchanged. */
  lemma CleanKeepsWord(w: string)
    requires NoBlank(w)
    ensures Clean(w) == w
  {
  }

  /** `replace` works character by character, so it distributes over concatenation. */
  lemma CleanAppend(a: string, b: string)
    ensures Clean(a + b) == Clean(a) + Clean(b)
  {
  }

  /** Every number of `values`, rendered as text by `show`. */
  function Render(values: seq<real>, show: real -> string): (r: seq<string>)
    ensures |r| == |values|
    ensures forall k :: 0 <= k < |values| ==> r[k] == show(values[k])
  {
    seq(|values|, k requires 0 <= k < |values| => show(values[k]))
  }

  /** Tokens that all parse are all kept, each as the number it parses to. */
  lemma {:induction false} KeepNumbersAllParse(values: seq<real>, tokens: seq<string>, pf: string -> Option<real>)
    requires |tokens| == |values|
    requires forall k :: 0 <= k < |values| ==> pf(tokens[k]) == Some(values[k])
    ensures KeepNumbers(tokens, pf) == values
  {
    if tokens != [] {
      KeepNumbersAllParse(values[1..], tokens[1..], pf);
    }
  }

  /**
   * The example button writes `sampleData.join(', ')` into the input. When
   * every value renders to a non-empty text free of separators and whitespace
   * that `parseFloat` reads back as the same value, parsing that text gives
   * back exactly the values, in order.
   */
  lemma ParseJoinedRoundTrip(values: seq<real>, show: real -> string, pf: string -> Option<real>)
    requires forall k :: 0 <= k < |values| ==>
      show(values[k]) != [] && NoBlank(show(values[k])) && pf(show(values[k])) == Some(values[k])
    ensures ParseInputData(Join(Render(values, show), ", "), pf) == values
  {
    var words := Render(values, show);
    CleanJoin(words, ", ");
    assert Clean(", ") == "  ";
    forall k | 0 <= k < |words|
      ensures words[k] != [] && NoWhitespace(words[k])
    {
      assert NoBlank(words[k]);
    }
    TokensOfJoin(words, "  ");
    KeepNumbersAllParse(values, words, pf);
  }

  /** Whitespace in front of a text is skipped together with the text's own leading whitespace. */
  lemma {:induction false} DropWhitespaceAppend(u: string, t: string)
    requires AllWhitespace(u)
    ensures DropWhitespace(u + t) == DropWhitespace(t)
  {
    if u != [] {
      assert (u + t)[0] == u[0];
      assert (u + t)[1..] == u[1..] + t;
      DropWhitespaceAppend(u[1..], t);
    } else {
      assert u + t == t;
    }
  }

  /** Text after a non-blank remainder is kept behind it. */
  lemma {:induction false} DropWhitespaceExtend(t: string, u: string)
    requires DropWhitespace(t) != []
    ensures DropWhitespace(t + u) == DropWhitespace(t) + u
  {
    assert (t + u)[0] == t[0];
    if IsWhitespace(t[0]) {
      assert (t + u)[1..] == t[1..] + u;
      DropWhitespaceExtend(t[1..], u);
    }
  }

  /** Text whose leading whitespace run is all of it is all whitespace. */
  lemma {:induction false} DropWhitespaceEmpty(t: string)
    requires DropWhitespace(t) == []
    ensures AllWhitespace(t)
  {
    if t != [] {
      DropWhitespaceEmpty(t[1..]);
      forall i | 1 <= i < |t|
        ensures IsWhitespace(t[i])
      {
        assert t[i] == t[1..][i - 1];
      }
    }
  }

  /** Leading whitespace only adds an empty first piece, which is filtered out. */
  lemma TokensDropWhitespace(s: string)
    ensures Tokens(s) == Tokens(DropWhitespace(s))
  {
    if s != [] && IsWhitespace(s[0]) {
      var pieces := Split(s);
      assert pieces == [[]] + Split(DropWhitespace(s));
      assert pieces[0] == [] && pieces[1..] == Split(DropWhitespace(s));
    }
  }

  /** Whitespace in front of a text does not change its tokens. */
  lemma TokensLeadingWhitespace(u: string, t: string)
    requires AllWhitespace(u)
    ensures Tokens(u + t) == Tokens(t)
  {
    TokensDropWhitespace(u + t);
    DropWhitespaceAppend(u, t);
    TokensDropWhitespace(t);
  }

  /** Appending `u` to `t` leaves the split of `t` as it is or adds one empty last piece. */
  predicate SplitExtends(t: string, u: string)
  {
    Split(t + u) == Split(t) || Split(t + u) == Split(t) + [[]]
  }

  /** Whitespace after a text adds at most one empty last piece. */
  lemma {:induction false} SplitTrailingWhitespace(t: string, u: string)
    requires u != [] && AllWhitespace(u)
    ensures SplitExtends(t, u)
    decreases |t|
  {
    if t == [] {
      SplitOfWhitespace(u);
      assert t + u == u;
    } else if IsWhitespace(t[0]) {
      var d := DropWhitespace(t);
      if d != [] {
        SplitTrailingWhitespace(d, u);
        SplitExtendsAfterRun(t, u);
      } else {
        DropWhitespaceEmpty(t);
        SplitOfWhitespace(t);
        SplitOfWhitespace(t + u);
      }
    } else {
      SplitTrailingWhitespace(t[1..], u);
      SplitExtendsAfterChar(t, u);
    }
  }

  /** The step of SplitTrailingWhitespace for a text that opens with whitespace. */
  lemma SplitExtendsAfterRun(t: string, u: string)
    requires t != [] && IsWhitespace(t[0]) && DropWhitespace(t) != []
    requires SplitExtends(DropWhitespace(t), u)
    ensures SplitExtends(t, u)
  {
    var d := DropWhitespace(t);
    assert (t + u)[0] == t[0];
    DropWhitespaceExtend(t, u);
    assert Split(t + u) == [[]] + Split(d + u);
    assert Split(t) == [[]] + Split(d);
  }

  /** The step of SplitTrailingWhitespace for a text that opens with a non-whitespace character. */
  lemma SplitExtendsAfterChar(t: string, u: string)
    requires t != [] && !IsWhitespace(t[0])
    requires SplitExtends(t[1..], u)
    ensures SplitExtends(t, u)
  {
    assert (t + u)[0] == t[0];
    assert (t + u)[1..] == t[1..] + u;
    var r, r' := Split(t[1..] + u), Split(t[1..]);
    assert Split(t + u) == [[t[0]] + r[0]] + r[1..];
    assert Split(t) == [[t[0]] + r'[0]] + r'[1..];
    if r != r' {
      assert r[0] == r'[0] && r[1..] == r'[1..] + [[]];
    }
  }

  /** A non-empty run of whitespace splits into two empty pieces. */
  lemma SplitOfWhitespace(u: string)
    requires u != [] && AllWhitespace(u)
    ensures Split(u) == [[], []]
  {
    DropWhitespaceAppend(u, []);
    assert u + [] == u;
  }

  /** Whitespace after a text does not change its tokens. */
  lemma TokensTrailingWhitespace(t: string, u: string)
    requires AllWhitespace(u)
    ensures Tokens(t + u) == Tokens(t)
  {
    if u == [] {
      assert t + u == t;
    } else {
      SplitTrailingWhitespace(t, u);
      NonEmptyAppend(Split(t), [[]]);
      assert NonEmpty([[]]) == [];
      assert NonEmpty(Split(t)) + [] == NonEmpty(Split(t));
    }
  }

  /** Drops the run of whitespace at the back of `s`. */
  function DropTrailingWhitespace(s: string): (r: string)
    ensures |r| <= |s| && r == s[..|r|]
    ensures forall i :: |r| <= i < |s| ==> IsWhitespace(s[i])
    ensures r == [] || !IsWhitespace(r[|r| - 1])
  {
    if s != [] && IsWhitespace(s[|s| - 1]) then DropTrailingWhitespace(s[..|s| - 1]) else s
  }

  /**
   * A split across a whitespace run: when `x` is empty or ends in a
   * non-whitespace character and `w` opens with whitespace, the pieces of
   * `x + w` are those of `x` followed by those of `w` without its leading run.
   */
  lemma {:induction false} SplitAcrossWhitespace(x: string, w: string)
    requires x == [] || !IsWhitespace(x[|x| - 1])
    requires w != [] && IsWhitespace(w[0])
    ensures Split(x + w) == Split(x) + Split(DropWhitespace(w))
    decreases |x|
  {
    if x == [] {
      assert x + w == w;
    } else if IsWhitespace(x[0]) {
      var d := DropWhitespace(x);
      DropWhitespaceSuffix(x);
      assert d != [] && d[|d| - 1] == x[|x| - 1];
      SplitAcrossWhitespace(d, w);
      SplitAcrossAfterRun(x, w, Split(DropWhitespace(w)));
    } else {
      var t := x[1..];
      assert t == [] || t[|t| - 1] == x[|x| - 1];
      SplitAcrossWhitespace(t, w);
      SplitAcrossAfterChar(x, w, Split(DropWhitespace(w)));
    }
  }

  /** The step of `SplitAcrossWhitespace` past a leading whitespace run of `x`. */
  lemma SplitAcrossAfterRun(x: string, w: string, tail: seq<string>)
    requires x != [] && IsWhitespace(x[0]) && DropWhitespace(x) != []
    requires Split(DropWhitespace(x) + w) == Split(DropWhitespace(x)) + tail
    ensures Split(x + w) == Split(x) + tail
  {
    var d := DropWhitespace(x);
    var r, r' := Split(d + w), Split(d);
    assert Split(x + w) == [[]] + r by {
      assert (x + w)[0] == x[0];
      DropWhitespaceExtend(x, w);
    }
    assert Split(x) == [[]] + r';
    PrependPiece([], r, r', tail);
  }

  /** The step of `SplitAcrossWhitespace` past a leading non-whitespace character of `x`. */
  lemma SplitAcrossAfterChar(x: string, w: string, tail: seq<string>)
    requires x != [] && !IsWhitespace(x[0])
    requires Split(x[1..] + w) == Split(x[1..]) + tail
    ensures Split(x + w) == Split(x) + tail
  {
    var t := x[1..];
    assert (x + w)[0] == x[0] && (x + w)[1..] == t + w;
    SplitAfterChar(x + w);
    SplitAfterChar(x);
    ExtendFirstPiece(x[0], Split(t + w), Split(t), tail);
  }

  /** A text opening with a non-whitespace character: that character opens the first piece. */
  lemma SplitAfterChar(s: string)
    requires s != [] && !IsWhitespace(s[0])
    ensures var r := Split(s[1..]); Split(s) == [[s[0]] + r[0]] + r[1..]
  {
  }

  /** Putting a piece in front commutes with appending pieces at the back. */
  lemma PrependPiece(p: string, r: seq<string>, r': seq<string>, tail: seq<string>)
    requires r == r' + tail
    ensures [p] + r == ([p] + r') + tail
  {
  }

  /** Growing the first piece commutes with appending pieces at the back. */
  lemma ExtendFirstPiece(c: char, r: seq<string>, r': seq<string>, tail: seq<string>)
    requires |r'| >= 1 && r == r' + tail
    ensures [[c] + r[0]] + r[1..] == ([[c] + r'[0]] + r'[1..]) + tail
  {
    assert r[0] == r'[0];
    assert r[1..] == r'[1..] + tail;
  }

  /** Tokens across a whitespace run: the tokens of `a`, then those of `b`. */
  lemma TokensAcrossWhitespace(a: string, v: string, b: string)
    requires v != [] && AllWhitespace(v)
    ensures Tokens(a + v + b) == Tokens(a) + Tokens(b)
  {
    var x := DropTrailingWhitespace(a);
    var u := a[|x|..];
    assert a == x + u;
    TokensTrailingWhitespace(x, u);
    var w := u + v + b;
    assert a + v + b == x + w;
    assert AllWhitespace(u + v);
    assert w[0] == (u + v)[0];
    DropWhitespaceAppend(u + v, b);
    SplitAcrossWhitespace(x, w);
    NonEmptyAppend(Split(x), Split(DropWhitespace(b)));
    TokensDropWhitespace(b);
  }

  /**
   * Two texts joined by a space parse to the numbers of the first followed by
   * those of the second: a token that does not parse is skipped without
   * disturbing the order of the others.
   */
  lemma ParseAcrossSpace(a: string, b: string, pf: string -> Option<real>)
    ensures ParseInputData(a + " " + b, pf) == ParseInputData(a, pf) + ParseInputData(b, pf)
  {
    CleanAppend(a + " ", b);
    CleanAppend(a, " ");
    assert Clean(" ") == " ";
    TokensAcrossWhitespace(Clean(a), " ", Clean(b));
    KeepNumbersAppend(Tokens(Clean(a)), Tokens(Clean(b)), pf);
  }

  /** A single blank-free word parses to its number, or to nothing when `parseFloat` rejects it. */
  lemma ParseWord(w: string, pf: string -> Option<real>)
    requires w != [] && NoBlank(w)
    ensures ParseInputData(w, pf) == if pf(w).Some? then [pf(w).value] else []
  {
    CleanKeepsWord(w);
    TokensOfWord(w);
    assert KeepNumbers([w][1..], pf) == [];
  }

  /**
   * A word `parseFloat` rejects between two it reads is skipped: `"1 abc 2"`
   * parses to `[1, 2]`.
   */
  lemma SkipsNonNumber(x: string, junk: string, y: string, pf: string -> Option<real>)
    requires x != [] && NoBlank(x) && pf(x).Some?
    requires junk != [] && NoBlank(junk) && pf(junk) == None
    requires y != [] && NoBlank(y) && pf(y).Some?
    ensures ParseInputData(x + " " + junk + " " + y, pf) == [pf(x).value, pf(y).value]
  {
    assert x + " " + junk + " " + y == x + " " + (junk + " " + y);
    ParseAcrossSpace(x, junk + " " + y, pf);
    ParseAcrossSpace(junk, y, pf);
    ParseWord(x, pf);
    ParseWord(junk, pf);
    ParseWord(y, pf);
  }
}
