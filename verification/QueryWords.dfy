/** What `normalize_query` of `l2_probes.py` keeps of a query: its words, with one blank between them. */
module QueryWords {
  import opened PyText
  import opened PyTextLaws
  import opened EditDistance

  /** The stretches of a text without white space, in order. */
  function Words(s: string): (r: seq<string>)
    ensures s != "" && !IsSpace(s[0]) ==> r != []
    ensures forall i :: 0 <= i < |r| ==> r[i] != ""
  {
    if s == "" then []
    else if IsSpace(s[0]) then Words(s[1..])
    else if |s| == 1 || IsSpace(s[1]) then [[s[0]]] + Words(s[1..])
    else
      var r := Words(s[1..]);
      [[s[0]] + r[0]] + r[1..]
  }

  lemma {:induction false} CollapseEnds(s: string)
    ensures var r := Collapse(s);
            && (r == "" <==> s == "")
            && (s != "" ==> (IsSpace(r[0]) <==> IsSpace(s[0])) && (IsSpace(r[|r| - 1]) <==> IsSpace(s[|s| - 1])))
            && (s != "" && !IsSpace(s[0]) ==> r[0] == s[0])
  {
    if s == "" {
    } else {
      CollapseEnds(s[1..]);
    }
  }

  /** Collapsing white space keeps the words. */
  lemma {:induction false} CollapseWords(s: string)
    ensures Words(Collapse(s)) == Words(s)
  {
    if s == "" {
    } else {
      var rest, r := s[1..], Collapse(s[1..]);
      CollapseWords(rest);
      CollapseEnds(rest);
      if !IsSpace(s[0]) {
        assert ([s[0]] + r)[1..] == r;
        assert rest != "" ==> rest[0] == s[1] && ([s[0]] + r)[1] == r[0];
      } else {
        assert (" " + r)[1..] == r;
      }
    }
  }

  /** No white space is left but single blanks. */
  lemma {:induction false} CollapseBlanks(s: string)
    ensures var r := Collapse(s);
            && (forall i :: 0 <= i < |r| && IsSpace(r[i]) ==> r[i] == ' ')
            && forall i :: 0 < i < |r| ==> !(IsSpace(r[i - 1]) && IsSpace(r[i]))
  {
    if s == "" {
    } else {
      CollapseBlanks(s[1..]);
      CollapseEnds(s[1..]);
    }
  }

  /** The words of a text without white space at its ends, joined by single blanks. */
  lemma {:induction false} CollapseJoins(s: string)
    requires s != "" && !IsSpace(s[|s| - 1])
    ensures Words(s) != []
    ensures Collapse(s) == (if IsSpace(s[0]) then " " else "") + Join(Words(s), ' ')
  {
    if |s| == 1 {
      OneCharacter(s);
    } else {
      hide Join, Words, Collapse, IsSpace;
      CollapseJoins(s[1..]);
      var words := Words(s[1..]);
      if IsSpace(s[0]) {
        BlankInFront(s);
      } else {
        LetterInFront(s);
        if IsSpace(s[1]) {
          JoinNext([s[0]], words);
        } else {
          JoinLonger([s[0]], words);
        }
      }
      NothingInFront(Join(words, ' '));
      NothingInFront(Join(Words(s), ' '));
    }
  }

  lemma OneCharacter(s: string)
    requires |s| == 1 && !IsSpace(s[0])
    ensures Words(s) == [s] && Collapse(s) == s && Join([s], ' ') == s
  {
    assert s[1..] == "" && s == [s[0]];
  }

  lemma BlankInFront(s: string)
    requires |s| > 1 && IsSpace(s[0])
    ensures Words(s) == Words(s[1..])
    ensures Collapse(s) == if IsSpace(s[1]) then Collapse(s[1..]) else " " + Collapse(s[1..])
  {}

  lemma LetterInFront(s: string)
    requires |s| > 1 && !IsSpace(s[0])
    ensures Collapse(s) == [s[0]] + Collapse(s[1..])
    ensures var r := Words(s[1..]);
            if IsSpace(s[1]) then Words(s) == [[s[0]]] + r
            else r != [] && Words(s) == [[s[0]] + r[0]] + r[1..]
  {}

  lemma NothingInFront(s: string)
    ensures "" + s == s
  {}

  lemma JoinNext(c: string, words: seq<string>)
    requires words != []
    ensures Join([c] + words, ' ') == c + (" " + Join(words, ' '))
  {
    assert ([c] + words)[1..] == words;
  }

  lemma JoinLonger(c: string, words: seq<string>)
    requires words != []
    ensures Join([c + words[0]] + words[1..], ' ') == c + Join(words, ' ')
  {
    var longer := [c + words[0]] + words[1..];
    assert longer[0] == c + words[0] && longer[1..] == words[1..];
    if |words| > 1 {
      var more := Join(words[1..], ' ');
      Assoc(c, words[0], [' ']);
      Assoc(c, words[0] + [' '], more);
    }
  }

  /** Lower-casing leaves no white space at the ends of a text that had none. */
  ghost predicate KeepsEnds(lower: string -> string) {
    lower("") == "" && forall s :: Trimmed(s) ==> Trimmed(lower(s))
  }

  /** The words of a query, in lower case. */
  function QueryTerms(text: string, lower: string -> string): seq<string> {
    Words(lower(Strip(text)))
  }

  /** A normalized query is its words with one blank between them, and nothing for a blank query. */
  lemma NormalizedExact(text: string, lower: string -> string)
    requires KeepsEnds(lower)
    ensures var words := QueryTerms(text, lower);
            NormalizeQuery(text, lower) == if words == [] then "" else Join(words, ' ')
    ensures QueryTerms(text, lower) == [] <==> Strip(text) == ""
  {
    hide Strip;
    StripExact(text);
    var s := lower(Strip(text));
    if Strip(text) != "" {
      assert Trimmed(s);
      CollapseJoins(s);
      assert "" + Join(Words(s), ' ') == Join(Words(s), ' ');
    }
  }

  /** Two queries do not drift exactly when they have the same words. */
  lemma NoDriftIff(original: string, used: string, lower: string -> string)
    requires KeepsEnds(lower)
    ensures Drift(NormalizeQuery(original, lower), NormalizeQuery(used, lower)) == 0.0 <==>
            QueryTerms(original, lower) == QueryTerms(used, lower)
  {
    hide Strip, Collapse, Words, Drift, Distance;
    var a, b := NormalizeQuery(original, lower), NormalizeQuery(used, lower);
    DriftLaws(original, used, lower);
    NormalizedExact(original, lower);
    NormalizedExact(used, lower);
    CollapseWords(lower(Strip(original)));
    CollapseWords(lower(Strip(used)));
  }
}
