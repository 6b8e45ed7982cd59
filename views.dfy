/** The search helpers of the page handlers: the query tokenizer, the compiler of a
    query into a tree of substring tests over fields, and the one-for-one list merge. */
module Views {
  import opened Wrappers
  import opened Text

  // ---------------------------------------------------------------------------
  // Whitespace handling of a matched term

  /** Length of the run of whitespace that starts `s`. */
  function SpaceRun(s: string): (n: nat)
    ensures n <= |s|
  {
    if s == [] || !IsSpace(s[0]) then 0 else 1 + SpaceRun(s[1..])
  }

  /** The run is all whitespace and ends at a non-whitespace character or the end. */
  lemma {:induction false} SpaceRunBounds(s: string)
    ensures forall i :: 0 <= i < SpaceRun(s) ==> IsSpace(s[i])
    ensures SpaceRun(s) < |s| ==> !IsSpace(s[SpaceRun(s)])
  {
    if s != [] && IsSpace(s[0]) {
      SpaceRunBounds(s[1..]);
    }
  }

  /** Length of the run of non-whitespace that starts `s`. */
  function NonSpaceRun(s: string): (n: nat)
    ensures n <= |s|
    ensures s != [] && !IsSpace(s[0]) ==> n >= 1
  {
    if s == [] || IsSpace(s[0]) then 0 else 1 + NonSpaceRun(s[1..])
  }

  /** Two whitespace characters in a row at `i`. */
  predicate SpacePairAt(s: string, i: nat)
    requires i + 1 < |s|
  {
    IsSpace(s[i]) && IsSpace(s[i + 1])
  }

  /** `re.sub(r'\s{2,}', ' ', s)`: every run of two or more whitespace characters becomes
      one space; a lone whitespace character is kept as it is. */
  function CollapseSpaces(s: string): (r: string)
    ensures s == [] <==> r == []
    ensures s != [] && !IsSpace(s[0]) ==> r[0] == s[0]
    decreases |s|
  {
    if s == [] then []
    else if !IsSpace(s[0]) then [s[0]] + CollapseSpaces(s[1..])
    else
      var n := SpaceRun(s);
      if n >= 2 then [' '] + CollapseSpaces(s[n..]) else [s[0]] + CollapseSpaces(s[1..])
  }

  /** No two whitespace characters remain next to each other. */
  lemma {:induction false} CollapseNoPairs(s: string)
    ensures forall i :: 0 <= i < |CollapseSpaces(s)| - 1 ==> !SpacePairAt(CollapseSpaces(s), i)
    decreases |s|
  {
    if s == [] {
    } else if !IsSpace(s[0]) {
      CollapseNoPairs(s[1..]);
      ConsKeepsNoPair(s[0], CollapseSpaces(s[1..]));
    } else {
      var n := SpaceRun(s);
      SpaceRunBounds(s);
      if n >= 2 {
        CollapseNoPairs(s[n..]);
        ConsKeepsNoPair(' ', CollapseSpaces(s[n..]));
      } else {
        CollapseNoPairs(s[1..]);
        ConsKeepsNoPair(s[0], CollapseSpaces(s[1..]));
      }
    }
  }

  /** A last character that is not whitespace stays last. */
  lemma {:induction false} CollapseLast(s: string)
    requires s != [] && !IsSpace(s[|s| - 1])
    ensures CollapseSpaces(s)[|CollapseSpaces(s)| - 1] == s[|s| - 1]
    decreases |s|
  {
    if !IsSpace(s[0]) {
      if |s| > 1 {
        CollapseLast(s[1..]);
      }
    } else {
      var n := SpaceRun(s);
      SpaceRunBounds(s);
      if n >= 2 {
        CollapseLast(s[n..]);
      } else {
        CollapseLast(s[1..]);
      }
    }
  }

  /** Text without whitespace is left as it is. */
  lemma {:induction false} CollapseNoSpace(s: string)
    requires NoSpace(s)
    ensures CollapseSpaces(s) == s
  {
    if s != [] {
      CollapseNoSpace(s[1..]);
    }
  }

  /** The non-whitespace characters of `s`, in order. */
  function NonSpaces(s: string): string
  {
    if s == [] then [] else (if IsSpace(s[0]) then [] else [s[0]]) + NonSpaces(s[1..])
  }

  lemma {:induction false} NonSpacesConcat(a: string, b: string)
    ensures NonSpaces(a + b) == NonSpaces(a) + NonSpaces(b)
  {
    if a == [] {
      assert a + b == b;
    } else {
      assert (a + b)[1..] == a[1..] + b;
      NonSpacesConcat(a[1..], b);
    }
  }

  lemma {:induction false} NonSpacesBlank(s: string)
    requires forall i :: 0 <= i < |s| ==> IsSpace(s[i])
    ensures NonSpaces(s) == []
  {
    if s != [] {
      NonSpacesBlank(s[1..]);
    }
  }

  /** Collapsing changes only whitespace: the non-whitespace characters are all kept, in
      their order. */
  lemma {:induction false} CollapseKeepsNonSpaces(s: string)
    ensures NonSpaces(CollapseSpaces(s)) == NonSpaces(s)
    decreases |s|
  {
    if s == [] {
    } else if !IsSpace(s[0]) || SpaceRun(s) < 2 {
      CollapseKeepsNonSpaces(s[1..]);
      NonSpacesConcat([s[0]], CollapseSpaces(s[1..]));
    } else {
      var n := SpaceRun(s);
      SpaceRunBounds(s);
      CollapseKeepsNonSpaces(s[n..]);
      NonSpacesConcat([' '], CollapseSpaces(s[n..]));
      assert s == s[..n] + s[n..];
      NonSpacesConcat(s[..n], s[n..]);
      NonSpacesBlank(s[..n]);
    }
  }

  /** A block of whitespace followed by a non-whitespace character or the end is one run. */
  lemma {:induction false} SpaceRunOfBlock(sp: string, t: string)
    requires forall i :: 0 <= i < |sp| ==> IsSpace(sp[i])
    requires t == [] || !IsSpace(t[0])
    ensures SpaceRun(sp + t) == |sp|
  {
    if sp == [] {
      assert sp + t == t;
    } else {
      assert (sp + t)[1..] == sp[1..] + t;
      SpaceRunOfBlock(sp[1..], t);
    }
  }

  /** A whole run of two or more whitespace characters becomes one space. */
  lemma CollapseRun(sp: string, t: string)
    requires |sp| >= 2 && forall i :: 0 <= i < |sp| ==> IsSpace(sp[i])
    requires t == [] || !IsSpace(t[0])
    ensures CollapseSpaces(sp + t) == " " + CollapseSpaces(t)
  {
    SpaceRunOfBlock(sp, t);
    assert (sp + t)[|sp|..] == t;
  }

  /** A lone whitespace character is kept as it is. */
  lemma CollapseLoneSpace(c: char, t: string)
    requires IsSpace(c)
    requires t == [] || !IsSpace(t[0])
    ensures CollapseSpaces([c] + t) == [c] + CollapseSpaces(t)
  {
    SpaceRunOfBlock([c], t);
    assert ([c] + t)[1..] == t;
  }

  /** A prefix without whitespace is kept as it is. */
  lemma {:induction false} CollapseWordPrefix(w: string, t: string)
    requires NoSpace(w)
    ensures CollapseSpaces(w + t) == w + CollapseSpaces(t)
  {
    if w == [] {
      assert w + t == t;
    } else {
      assert (w + t)[1..] == w[1..] + t;
      CollapseWordPrefix(w[1..], t);
    }
  }

  /** A word, then a run of two or more whitespace characters: the word is kept and the
      run becomes one space. */
  lemma CollapseWordRun(w: string, sp: string, t: string)
    requires NoSpace(w)
    requires |sp| >= 2 && forall i :: 0 <= i < |sp| ==> IsSpace(sp[i])
    requires t == [] || !IsSpace(t[0])
    ensures CollapseSpaces(w + sp + t) == w + " " + CollapseSpaces(t)
  {
    assert w + sp + t == w + (sp + t);
    CollapseWordPrefix(w, sp + t);
    CollapseRun(sp, t);
  }

  lemma ConsKeepsNoPair(c: char, r: string)
    requires forall i :: 0 <= i < |r| - 1 ==> !SpacePairAt(r, i)
    requires r == [] || !IsSpace(c) || !IsSpace(r[0])
    ensures forall i :: 0 <= i < |[c] + r| - 1 ==> !SpacePairAt([c] + r, i)
  {
    var t := [c] + r;
    forall i | 0 <= i < |t| - 1 ensures !SpacePairAt(t, i) {
      if i > 0 {
        assert t[i] == r[i - 1] && t[i + 1] == r[i];
        assert SpacePairAt(t, i) == SpacePairAt(r, i - 1);
      }
    }
  }

  /** A term as the tokenizer leaves it: no whitespace at either end and no two
      whitespace characters in a row. */
  predicate IsNormalTerm(t: string)
  {
    (t == [] || (!IsSpace(t[0]) && !IsSpace(t[|t| - 1])))
    && forall i :: 0 <= i < |t| - 1 ==> !SpacePairAt(t, i)
  }

  /** `normspace(' ', match.strip())`. */
  function NormalizeTerm(m: string): string
  {
    CollapseSpaces(Strip(m))
  }

  /** A normalised term is normal, and a non-empty match without whitespace is its own
      term. */
  lemma NormalizeTermFacts(m: string)
    ensures IsNormalTerm(NormalizeTerm(m))
    ensures m != [] && NoSpace(m) ==> NormalizeTerm(m) == m
  {
    var stripped := Strip(m);
    CollapseNoPairs(stripped);
    if stripped != [] {
      CollapseLast(stripped);
    }
    NormalizeIfNoSpace(m);
  }

  lemma NormalizeIfNoSpace(m: string)
    ensures m != [] && NoSpace(m) ==> CollapseSpaces(Strip(m)) == m
  {
    if m != [] && NoSpace(m) {
      StripTrimmed(m);
      CollapseNoSpace(m);
    }
  }

  // ---------------------------------------------------------------------------
  // The tokenizer

  /** Index of the first `"` in `s`, or `|s|`. */
  function QuoteIndex(s: string): (n: nat)
    ensures n <= |s|
  {
    if s == [] || s[0] == '"' then 0 else 1 + QuoteIndex(s[1..])
  }

  /** `findterms(query_string)` with each match's group taken (`t[0] or t[1]`): the
      pattern `"([^"]+)"|(\S+)` is matched from left to right. At a quote with a later
      quote and at least one character between them, the match is that quoted phrase and
      the term its inner text; otherwise, at a non-whitespace character, the match is the
      longest run of non-whitespace (which may contain quotes); whitespace between
      matches is skipped. */
  function FindTerms(s: string): seq<string>
    decreases |s|
  {
    if s == [] then []
    else if PhraseAt(s) then
      var k := 1 + QuoteIndex(s[1..]);
      [s[1..k]] + FindTerms(s[k + 1..])
    else if IsSpace(s[0]) then FindTerms(s[1..])
    else
      var n := NonSpaceRun(s);
      [s[..n]] + FindTerms(s[n..])
  }

  /** `s` starts with a quote, a later quote closes it and at least one character lies
      between them: the first alternative of the pattern matches here. */
  predicate PhraseAt(s: string)
  {
    s != [] && s[0] == '"' && 2 <= 1 + QuoteIndex(s[1..]) < |s|
  }

  /** `normalize_query`: every match, stripped and with its whitespace runs collapsed. */
  function NormalizeQuery(s: string): seq<string>
  {
    var ms := FindTerms(s);
    seq(|ms|, i requires 0 <= i < |ms| => NormalizeTerm(ms[i]))
  }

  /** Every term the tokenizer gives is normalised: stripped, with no whitespace at either
      end and no two whitespace characters in a row. */
  lemma NormalizeQueryTerms(s: string)
    ensures forall i :: 0 <= i < |NormalizeQuery(s)| ==> IsNormalTerm(NormalizeQuery(s)[i])
  {
    var ms := FindTerms(s);
    forall i | 0 <= i < |ms| ensures IsNormalTerm(NormalizeQuery(s)[i]) {
      NormalizeTermFacts(ms[i]);
    }
  }

  /** Every match is non-empty. */
  lemma {:induction false} FindTermsNonEmpty(s: string)
    ensures forall i :: 0 <= i < |FindTerms(s)| ==> FindTerms(s)[i] != []
    decreases |s|
  {
    if s == [] {
    } else if PhraseAt(s) {
      var k := 1 + QuoteIndex(s[1..]);
      FindTermsNonEmpty(s[k + 1..]);
      TermsCons(s[1..k], FindTerms(s[k + 1..]));
    } else if IsSpace(s[0]) {
      FindTermsNonEmpty(s[1..]);
    } else {
      var n := NonSpaceRun(s);
      FindTermsNonEmpty(s[n..]);
      TermsCons(s[..n], FindTerms(s[n..]));
    }
  }

  lemma TermsCons(h: string, ts: seq<string>)
    requires h != [] && forall i :: 0 <= i < |ts| ==> ts[i] != []
    ensures forall i :: 0 <= i < |[h] + ts| ==> ([h] + ts)[i] != []
  {
    forall i | 0 <= i < |[h] + ts| ensures ([h] + ts)[i] != [] {
      if i > 0 {
        assert ([h] + ts)[i] == ts[i - 1];
      }
    }
  }

  /** A query made only of whitespace has no terms. */
  lemma {:induction false} NormalizeBlank(s: string)
    requires forall i :: 0 <= i < |s| ==> IsSpace(s[i])
    ensures FindTerms(s) == [] && NormalizeQuery(s) == []
    decreases |s|
  {
    if s != [] {
      assert s[0] != '"' by {
        assert !IsSpace('"');
      }
      NormalizeBlank(s[1..]);
    }
  }

  /** A term as a user types it: a bare word, or a phrase between double quotes. */
  datatype SearchTerm = Word(text: string) | Phrase(text: string)

  predicate WellFormedTerm(t: SearchTerm)
  {
    match t
    case Word(w) => |w| > 0 && NoSpace(w) && w[0] != '"'
    case Phrase(p) => |p| > 0 && forall i :: 0 <= i < |p| ==> p[i] != '"'
  }

  function RenderTerm(t: SearchTerm): string
  {
    match t
    case Word(w) => w
    case Phrase(p) => "\"" + p + "\""
  }

  /** The terms written one after another, each followed by a space. */
  function RenderQuery(ts: seq<SearchTerm>): string
  {
    if ts == [] then "" else RenderTerm(ts[0]) + " " + RenderQuery(ts[1..])
  }

  /** The texts of typed terms: a word itself, a phrase without its quotes. */
  function TermTexts(ts: seq<SearchTerm>): (r: seq<string>)
    ensures |r| == |ts|
  {
    if ts == [] then [] else [ts[0].text] + TermTexts(ts[1..])
  }

  lemma {:induction false} TermTextsAt(ts: seq<SearchTerm>, i: nat)
    requires i < |ts|
    ensures TermTexts(ts)[i] == ts[i].text
  {
    if i > 0 {
      TermTextsAt(ts[1..], i - 1);
    }
  }

  /** What the tokenizer should give back for a typed term. */
  function ExpectedTerm(t: SearchTerm): string
  {
    match t
    case Word(w) => w
    case Phrase(p) => NormalizeTerm(p)
  }

  function ExpectedTerms(ts: seq<SearchTerm>): seq<string>
  {
    seq(|ts|, i requires 0 <= i < |ts| => ExpectedTerm(ts[i]))
  }

  lemma {:induction false} NonSpaceRunOfWord(w: string, rest: string)
    requires NoSpace(w)
    ensures NonSpaceRun(w + " " + rest) == |w|
  {
    if w != [] {
      assert (w + " " + rest)[1..] == w[1..] + " " + rest;
      NonSpaceRunOfWord(w[1..], rest);
    }
  }

  lemma {:induction false} QuoteIndexOfPhrase(p: string, rest: string)
    requires forall i :: 0 <= i < |p| ==> p[i] != '"'
    ensures QuoteIndex(p + rest) == |p| || (rest != [] && rest[0] != '"')
    ensures rest != [] && rest[0] == '"' ==> QuoteIndex(p + rest) == |p|
  {
    if p != [] {
      assert (p + rest)[1..] == p[1..] + rest;
      QuoteIndexOfPhrase(p[1..], rest);
    } else {
      assert p + rest == rest;
    }
  }

  /** A leading space is skipped. */
  lemma SkipSpace(rest: string)
    ensures FindTerms(" " + rest) == FindTerms(rest)
  {
    assert (" " + rest)[1..] == rest;
    assert !PhraseAt(" " + rest);
  }

  /** The scanner's step at a quoted phrase. */
  lemma PhraseStep(s: string)
    requires PhraseAt(s)
    ensures var k := 1 + QuoteIndex(s[1..]);
      FindTerms(s) == [s[1..k]] + FindTerms(s[k + 1..])
  {
  }

  /** The scanner's step at a character that starts no quoted phrase. */
  lemma WordStep(s: string)
    requires s != [] && !IsSpace(s[0]) && !PhraseAt(s)
    ensures FindTerms(s) == [s[..NonSpaceRun(s)]] + FindTerms(s[NonSpaceRun(s)..])
  {
  }

  lemma FindWordThenRest(w: string, rest: string)
    requires WellFormedTerm(Word(w))
    ensures FindTerms(w + " " + rest) == [w] + FindTerms(rest)
  {
    var s := w + " " + rest;
    assert s[0] == w[0];
    WordStep(s);
    NonSpaceRunOfWord(w, rest);
    assert s[..|w|] == w;
    assert s[|w|..] == " " + rest;
    SkipSpace(rest);
  }

  /** A quoted phrase followed by `after` (which starts with a space) is scanned as the
      phrase and then whatever `after` gives. */
  lemma FindPhraseHead(p: string, after: string)
    requires p != [] && QuoteIndex(p + (['"'] + after)) == |p|
    requires after != [] && after[0] == ' '
    ensures FindTerms(['"'] + (p + (['"'] + after))) == [p] + FindTerms(after)
  {
    var tail := ['"'] + after;
    var s := ['"'] + (p + tail);
    assert s[1..] == p + tail;
    PhraseStep(s);
    assert s[1..|p| + 1] == p;
    assert s[|p| + 2..] == after;
  }

  lemma FindPhraseThenRest(p: string, rest: string)
    requires WellFormedTerm(Phrase(p))
    ensures FindTerms("\"" + p + "\"" + " " + rest) == [p] + FindTerms(rest)
  {
    var after := " " + rest;
    QuoteIndexOfPhrase(p, ['"'] + after);
    assert "\"" + p + "\"" + " " + rest == ['"'] + (p + (['"'] + after));
    FindPhraseHead(p, after);
    SkipSpace(rest);
  }

  /** One term followed by a space is matched as exactly that term. */
  lemma FindTermThenRest(t: SearchTerm, rest: string)
    requires WellFormedTerm(t)
    ensures FindTerms(RenderTerm(t) + " " + rest) == [t.text] + FindTerms(rest)
  {
    match t
    case Word(w) => FindWordThenRest(w, rest);
    case Phrase(p) => FindPhraseThenRest(p, rest);
  }

  /** Typing well-formed terms separated by spaces and matching the text gives back the
      texts of the terms, in order. */
  lemma {:induction false} FindRendered(ts: seq<SearchTerm>)
    requires forall i :: 0 <= i < |ts| ==> WellFormedTerm(ts[i])
    ensures FindTerms(RenderQuery(ts)) == TermTexts(ts)
  {
    if ts != [] {
      FindTermThenRest(ts[0], RenderQuery(ts[1..]));
      FindRendered(ts[1..]);
    }
  }

  /** Round trip: typing well-formed terms separated by spaces and tokenizing the text
      gives back the terms, in order, with each phrase stripped and collapsed. */
  lemma NormalizeRendered(ts: seq<SearchTerm>)
    requires forall i :: 0 <= i < |ts| ==> WellFormedTerm(ts[i])
    ensures NormalizeQuery(RenderQuery(ts)) == ExpectedTerms(ts)
  {
    FindRendered(ts);
    var q := NormalizeQuery(RenderQuery(ts));
    forall i | 0 <= i < |ts| ensures q[i] == ExpectedTerms(ts)[i] {
      TermTextsAt(ts, i);
      NormalizeTermFacts(ts[i].text);
    }
  }

  /** A quoted phrase of whitespace only yields the empty term. */
  lemma BlankPhraseGivesEmptyTerm(p: string)
    requires |p| > 0 && forall i :: 0 <= i < |p| ==> IsSpace(p[i])
    ensures NormalizeQuery(RenderQuery([Phrase(p)])) == [""]
  {
    assert forall i :: 0 <= i < |p| ==> p[i] != '"' by {
      assert !IsSpace('"');
    }
    StripBlank(p);
    NormalizeRendered([Phrase(p)]);
    assert ExpectedTerms([Phrase(p)])[0] == "";
  }

  // ---------------------------------------------------------------------------
  // The query compiler

  /** Django `Q` objects: a `field__icontains=term` test and their `|` and `&`. */
  datatype Query = Contains(field: string, term: string) | Or(left: Query, right: Query) | And(left: Query, right: Query)

  /** The `n` characters of `hay` from index `i`. */
  function Window(hay: string, i: nat, n: nat): (w: string)
    requires i + n <= |hay|
    ensures |w| == n
  {
    hay[i..i + n]
  }

  predicate IsSubstring(needle: string, hay: string)
  {
    exists i: nat :: i + |needle| <= |hay| && Window(hay, i, |needle|) == needle
  }

  /** `icontains`: a substring test that ignores ASCII case. */
  predicate IContains(hay: string, needle: string)
  {
    IsSubstring(Lower(needle), Lower(hay))
  }

  /** Whether a row (column name to text) satisfies a query. */
  predicate Matches(q: Query, row: map<string, string>)
  {
    match q
    case Contains(f, t) => f in row && IContains(row[f], t)
    case Or(a, b) => Matches(a, row) || Matches(b, row)
    case And(a, b) => Matches(a, row) && Matches(b, row)
  }

  /** The left-nested `|` of one `icontains` test per field, in the order of the fields. */
  function FieldsQuery(fields: seq<string>, term: string): (q: Option<Query>)
    ensures q.None? <==> fields == []
    decreases |fields|
  {
    if fields == [] then None
    else
      var last := Contains(fields[|fields| - 1], term);
      match FieldsQuery(fields[..|fields| - 1], term)
      case None => Some(last)
      case Some(q) => Some(Or(q, last))
  }

  /** One more field adds one more `|` on the right. */
  lemma FieldsQueryStep(fields: seq<string>, f: nat, term: string)
    requires f < |fields|
    ensures FieldsQuery(fields[..f + 1], term) ==
      if f == 0 then Some(Contains(fields[f], term))
      else Some(Or(FieldsQuery(fields[..f], term).value, Contains(fields[f], term)))
  {
    assert fields[..f + 1][..f] == fields[..f];
  }

  predicate HasColumns(row: map<string, string>, fields: seq<string>)
  {
    forall i :: 0 <= i < |fields| ==> fields[i] in row
  }

  /** A row satisfies a term's query exactly when some field contains the term. */
  lemma {:induction false} FieldsQueryMatches(fields: seq<string>, term: string, row: map<string, string>)
    requires fields != [] && HasColumns(row, fields)
    ensures Matches(FieldsQuery(fields, term).value, row) <==>
      exists i :: 0 <= i < |fields| && IContains(row[fields[i]], term)
  {
    var init := fields[..|fields| - 1];
    if init != [] {
      assert HasColumns(row, init) by {
        assert forall i :: 0 <= i < |init| ==> init[i] == fields[i];
      }
      FieldsQueryMatches(init, term, row);
      if exists i :: 0 <= i < |init| && IContains(row[init[i]], term) {
        var i :| 0 <= i < |init| && IContains(row[init[i]], term);
        assert fields[i] == init[i];
      }
    }
  }

  /** `get_query`. As written, only the first term's group is kept: the loop assigns
      `query` once and never combines the later groups into it. */
  method GetQuery(queryString: string, searchFields: seq<string>) returns (query: Option<Query>)
    ensures query.None? <==> NormalizeQuery(queryString) == [] || searchFields == []
    ensures query.Some? ==> query == FieldsQuery(searchFields, NormalizeQuery(queryString)[0])
    ensures query.Some? ==> forall row :: HasColumns(row, searchFields) ==>
      (Matches(query.value, row) <==>
        exists i :: 0 <= i < |searchFields| && IContains(row[searchFields[i]], NormalizeQuery(queryString)[0]))
  {
    query := None;
    var terms := NormalizeQuery(queryString);
    var t := 0;
    while t < |terms|
      invariant 0 <= t <= |terms|
      invariant query == if t == 0 then None else FieldsQuery(searchFields, terms[0])
    {
      var orQuery: Option<Query> := None;
      var f := 0;
      while f < |searchFields|
        invariant 0 <= f <= |searchFields|
        invariant orQuery == FieldsQuery(searchFields[..f], terms[t])
      {
        var q := Contains(searchFields[f], terms[t]);
        FieldsQueryStep(searchFields, f, terms[t]);
        if orQuery.None? {
          orQuery := Some(q);
        } else {
          orQuery := Some(Or(orQuery.value, q));
        }
        f := f + 1;
      }
      assert searchFields[..|searchFields|] == searchFields;
      if query.None? {
        query := orQuery;
      }
      t := t + 1;
    }
    if query.Some? {
      forall row | HasColumns(row, searchFields)
        ensures Matches(query.value, row) <==>
          exists i :: 0 <= i < |searchFields| && IContains(row[searchFields[i]], terms[0])
      {
        FieldsQueryMatches(searchFields, terms[0], row);
      }
    }
  }

  /** The `&` of every term's group, as the comment "every search term" intends. */
  function TermsQuery(terms: seq<string>, fields: seq<string>): (q: Option<Query>)
    ensures q.None? <==> terms == [] || fields == []
    decreases |terms|
  {
    if terms == [] || fields == [] then None
    else
      var last := FieldsQuery(fields, terms[|terms| - 1]).value;
      match TermsQuery(terms[..|terms| - 1], fields)
      case None => Some(last)
      case Some(q) => Some(And(q, last))
  }

  /** A row satisfies the corrected query exactly when every term is found in some field. */
  lemma {:induction false} TermsQueryMatches(terms: seq<string>, fields: seq<string>, row: map<string, string>)
    requires terms != [] && fields != [] && HasColumns(row, fields)
    ensures Matches(TermsQuery(terms, fields).value, row) <==>
      forall j :: 0 <= j < |terms| ==> exists i :: 0 <= i < |fields| && IContains(row[fields[i]], terms[j])
  {
    var init := terms[..|terms| - 1];
    FieldsQueryMatches(fields, terms[|terms| - 1], row);
    if init != [] {
      TermsQueryMatches(init, fields, row);
      assert forall j :: 0 <= j < |init| ==> init[j] == terms[j];
    }
  }

  /** `get_query` with every term's group combined by `&`. */
  function GetQueryAllTerms(queryString: string, searchFields: seq<string>): (query: Option<Query>)
    ensures query.None? <==> NormalizeQuery(queryString) == [] || searchFields == []
    ensures query.Some? ==> forall row :: HasColumns(row, searchFields) ==>
      (Matches(query.value, row) <==>
        forall j :: 0 <= j < |NormalizeQuery(queryString)| ==>
          exists i :: 0 <= i < |searchFields| && IContains(row[searchFields[i]], NormalizeQuery(queryString)[j]))
  {
    var terms := NormalizeQuery(queryString);
    var q := TermsQuery(terms, searchFields);
    if q.Some? then
      assert forall row :: HasColumns(row, searchFields) ==>
        (Matches(q.value, row) <==>
          forall j :: 0 <= j < |terms| ==> exists i :: 0 <= i < |searchFields| && IContains(row[searchFields[i]], terms[j])) by {
        forall row | HasColumns(row, searchFields) {
          TermsQueryMatches(terms, searchFields, row);
        }
      }
      q
    else q
  }

  /** Two bare words typed one after the other are scanned as those two terms. */
  lemma NormalizeTwoWords(a: string, b: string)
    requires WellFormedTerm(Word(a)) && WellFormedTerm(Word(b))
    ensures NormalizeQuery(a + " " + b + " ") == [a, b]
  {
    var q := a + " " + b + " ";
    FindTwoWords(a, b);
    NormalizeTermFacts(a);
    NormalizeTermFacts(b);
    assert NormalizeQuery(q)[0] == a && NormalizeQuery(q)[1] == b;
  }

  lemma FindTwoWords(a: string, b: string)
    requires WellFormedTerm(Word(a)) && WellFormedTerm(Word(b))
    ensures FindTerms(a + " " + b + " ") == [a, b]
  {
    FindWordThenRest(b, "");
    assert b + " " + "" == b + " ";
    assert FindTerms("") == [];
    FindWordThenRest(a, b + " ");
    assert a + " " + b + " " == a + " " + (b + " ");
  }

  lemma IContainsSelf(a: string)
    ensures IContains(a, a)
  {
    var l := Lower(a);
    assert Window(l, 0, |l|) == l;
  }

  /** The words `a` and `b` meet the premise of `GetQueryIgnoresLaterTerms`. */
  lemma ContainsAB()
    ensures WellFormedTerm(Word("a")) && WellFormedTerm(Word("b"))
    ensures IContains("a", "a") && !IContains("a", "b")
  {
    assert Lower("a") == "a" && Lower("b") == "b";
    assert Window("a", 0, 1) == "a";
  }

  /** For a query `a b` of two words where `a` does not contain `b`, the query built over
      the field `title` accepts an artwork titled `a`: the term `b` is never consulted,
      while the query over every term rejects it. */
  lemma GetQueryIgnoresLaterTerms(a: string, b: string)
    requires WellFormedTerm(Word(a)) && WellFormedTerm(Word(b)) && !IContains(a, b)
    ensures var q := a + " " + b + " ";
            var row := map["title" := a];
            NormalizeQuery(q) == [a, b]
            && Matches(FieldsQuery(["title"], NormalizeQuery(q)[0]).value, row)
            && !Matches(GetQueryAllTerms(q, ["title"]).value, row)
  {
    NormalizeTwoWords(a, b);
    IContainsSelf(a);
    TwoTermsOneField(a, b, "title");
    var row := map["title" := a];
    assert row["title"] == a;
  }

  lemma TwoTermsOneField(a: string, b: string, f: string)
    ensures FieldsQuery([f], a) == Some(Contains(f, a))
    ensures TermsQuery([a, b], [f]) == Some(And(Contains(f, a), Contains(f, b)))
  {
    assert [f][..0] == [];
    assert FieldsQuery([f], b) == Some(Contains(f, b));
    assert [a, b][..1] == [a] && [a][..0] == [];
  }

  // ---------------------------------------------------------------------------
  // The list merge

  function Min(a: nat, b: nat): nat { if a < b then a else b }

  /** `x[0], y[0], x[1], y[1], ...` for two lists of one length. */
  function Interleave<T>(x: seq<T>, y: seq<T>): (r: seq<T>)
    requires |x| == |y|
    ensures |r| == 2 * |x|
  {
    if x == [] then [] else [x[0], y[0]] + Interleave(x[1..], y[1..])
  }

  lemma {:induction false} InterleaveAt<T>(x: seq<T>, y: seq<T>, i: nat)
    requires |x| == |y| && i < |x|
    ensures Interleave(x, y)[2 * i] == x[i] && Interleave(x, y)[2 * i + 1] == y[i]
  {
    if i > 0 {
      InterleaveAt(x[1..], y[1..], i - 1);
    }
  }

  lemma MultisetRegroup<T>(a: multiset<T>, b: multiset<T>, c: multiset<T>, d: multiset<T>)
    ensures (a + b) + (c + d) == (a + c) + (b + d)
  {
  }

  lemma {:induction false} InterleaveMultiset<T>(x: seq<T>, y: seq<T>)
    requires |x| == |y|
    ensures multiset(Interleave(x, y)) == multiset(x) + multiset(y)
  {
    if x != [] {
      var t := Interleave(x[1..], y[1..]);
      InterleaveMultiset(x[1..], y[1..]);
      assert Interleave(x, y) == [x[0], y[0]] + t;
      assert multiset([x[0], y[0]] + t) == multiset([x[0], y[0]]) + multiset(t);
      assert multiset([x[0], y[0]]) == multiset{x[0]} + multiset{y[0]};
      assert x == [x[0]] + x[1..];
      assert y == [y[0]] + y[1..];
      MultisetRegroup(multiset{x[0]}, multiset{y[0]}, multiset(x[1..]), multiset(y[1..]));
    }
  }

  /** A list whose even slots hold `x` and odd slots hold `y` is their interleaving. */
  lemma {:induction false} InterleaveOfIndices<T>(a: seq<T>, x: seq<T>, y: seq<T>)
    requires |x| == |y| && |a| == 2 * |x|
    requires forall k :: 0 <= k < |x| ==> a[2 * k] == x[k]
    requires forall k :: 0 <= k < |x| ==> a[2 * k + 1] == y[k]
    ensures a == Interleave(x, y)
  {
    if x != [] {
      assert a[0] == x[0] && a[1] == y[0];
      forall k | 0 <= k < |x| - 1
        ensures a[2..][2 * k] == x[1..][k] && a[2..][2 * k + 1] == y[1..][k]
      {
        assert a[2 * (k + 1)] == x[k + 1] && a[2 * (k + 1) + 1] == y[k + 1];
      }
      InterleaveOfIndices(a[2..], x[1..], y[1..]);
      assert a == [a[0], a[1]] + a[2..];
    }
  }

  lemma ConcatMultiset<T>(x: seq<T>, t1: seq<T>, y: seq<T>, t2: seq<T>, a: seq<T>)
    requires multiset(a) == multiset(x) + multiset(y)
    ensures multiset(a + t1 + t2) == multiset(x + t1) + multiset(y + t2)
  {
    assert multiset(a + t1 + t2) == multiset(a) + multiset(t1) + multiset(t2);
  }

  lemma MergeTailMultiset<T>(a: seq<T>, list1: seq<T>, list2: seq<T>, num: nat)
    requires num == Min(|list1|, |list2|)
    requires a == Interleave(list1[..num], list2[..num])
    ensures multiset(a + list1[num..] + list2[num..]) == multiset(list1) + multiset(list2)
  {
    var x, y := list1[..num], list2[..num];
    InterleaveMultiset(x, y);
    ConcatMultiset(x, list1[num..], y, list2[num..], a);
    assert list1 == x + list1[num..] && list2 == y + list2[num..];
  }

  lemma MergeTail<T>(a: seq<T>, list1: seq<T>, list2: seq<T>, num: nat)
    requires num == Min(|list1|, |list2|)
    requires a == Interleave(list1[..num], list2[..num])
    ensures var r := a + list1[num..] + list2[num..];
      && |r| == |list1| + |list2|
      && (forall i :: 0 <= i < num ==> r[2 * i] == list1[i] && r[2 * i + 1] == list2[i])
      && r[2 * num..] == list1[num..] + list2[num..]
  {
    var r := a + list1[num..] + list2[num..];
    forall i | 0 <= i < num ensures r[2 * i] == list1[i] && r[2 * i + 1] == list2[i] {
      InterleaveAt(list1[..num], list2[..num], i);
    }
    assert r[2 * num..] == list1[num..] + list2[num..];
  }

  /** `merge_lists`: alternate the two lists element by element, then append what is
      left of the longer one. The inputs are values and are left as they were. */
  method MergeLists<T(0)>(list1: seq<T>, list2: seq<T>) returns (result: seq<T>)
    ensures |result| == |list1| + |list2|
    ensures forall i :: 0 <= i < Min(|list1|, |list2|) ==>
      result[2 * i] == list1[i] && result[2 * i + 1] == list2[i]
    ensures result[2 * Min(|list1|, |list2|)..] == list1[Min(|list1|, |list2|)..] + list2[Min(|list1|, |list2|)..]
    ensures list1[Min(|list1|, |list2|)..] == [] || list2[Min(|list1|, |list2|)..] == []
    ensures multiset(result) == multiset(list1) + multiset(list2)
    ensures list1 == [] ==> result == list2
    ensures list2 == [] ==> result == list1
  {
    var num := Min(|list1|, |list2|);
    var a := new T[num * 2];
    // result[::2] = list1[:num]
    var i := 0;
    while i < num
      invariant 0 <= i <= num
      invariant forall k :: 0 <= k < i ==> a[2 * k] == list1[k]
    {
      a[2 * i] := list1[i];
      i := i + 1;
    }
    // result[1::2] = list2[:num]
    i := 0;
    while i < num
      invariant 0 <= i <= num
      invariant forall k :: 0 <= k < num ==> a[2 * k] == list1[k]
      invariant forall k :: 0 <= k < i ==> a[2 * k + 1] == list2[k]
    {
      a[2 * i + 1] := list2[i];
      i := i + 1;
    }
    ghost var x, y := list1[..num], list2[..num];
    InterleaveOfIndices(a[..], x, y);
    result := a[..] + list1[num..] + list2[num..];
    MergeTail(a[..], list1, list2, num);
    MergeTailMultiset(a[..], list1, list2, num);
  }
}
