/** What `slugify` and `validateSlug` mean: the words of a name, and which texts are portal addresses. */
module SlugWords {
  import opened Common
  import opened Text
  import opened Slug

  /** The letters and digits a text starts with. */
  function Word(s: string): (word: string)
    ensures word <= s && (s != "" && Alnum(s[0]) ==> word != "")
    ensures |word| < |s| ==> !Alnum(s[|word|])
  {
    if s != "" && Alnum(s[0]) then [s[0]] + Word(s[1..]) else ""
  }

  /** The maximal runs of letters and digits, in order. */
  function Words(s: string): seq<string>
    decreases |s|
  {
    if s == "" then []
    else if Alnum(s[0]) then [Word(s)] + Words(s[|Word(s)|..])
    else Words(s[1..])
  }

  function Hyphenated(s: string): string {
    Join(Words(s), "-")
  }

  lemma {:induction false} WordsSkip(s: string)
    ensures Words(SkipOther(s)) == Words(s)
    ensures SkipOther(s) != "" ==> s != "" && SkipOther(s)[|SkipOther(s)| - 1] == s[|s| - 1]
    ensures SkipOther(s) == "" <==> Words(s) == []
    decreases |s|
  {
    if s != "" && !Alnum(s[0]) {
      WordsSkip(s[1..]);
    }
  }

  /** A hyphen in front, where the text starts with another character. */
  function Lead(s: string): string {
    if s != "" && !Alnum(s[0]) then "-" else ""
  }

  /** A hyphen behind, where words are followed by another character. */
  function Trail(s: string): string {
    if s != "" && !Alnum(s[|s| - 1]) && Words(s) != [] then "-" else ""
  }

  lemma HyphenatedInside(s: string)
    requires |s| > 1 && Alnum(s[0]) && Alnum(s[1])
    ensures Hyphenated(s) == [s[0]] + Hyphenated(s[1..]) && Words(s[1..]) != []
  {
    var rest := s[1..];
    assert Word(s) == [s[0]] + Word(rest) && s[|Word(s)|..] == rest[|Word(rest)|..];
    assert Words(rest) == [Word(rest)] + Words(rest[|Word(rest)|..]);
    assert Words(s)[1..] == Words(rest)[1..];
  }

  lemma HyphenatedEnd(s: string)
    requires |s| > 1 && Alnum(s[0]) && !Alnum(s[1])
    ensures Hyphenated(s) == if Words(s[1..]) == [] then [s[0]] else [s[0]] + "-" + Hyphenated(s[1..])
  {
    assert Word(s[1..]) == "" && Word(s) == [s[0]];
    assert Words(s) == [[s[0]]] + Words(s[1..]);
    assert Words(s)[1..] == Words(s[1..]);
  }

  predicate DashesWords(s: string) {
    Dashed(s) == Lead(s) + Hyphenated(s) + Trail(s)
  }

  lemma DashedOther(s: string)
    requires s != "" && !Alnum(s[0]) && DashesWords(SkipOther(s[1..]))
    ensures DashesWords(s)
  {
    var rest := SkipOther(s[1..]);
    WordsSkip(s[1..]);
    assert Words(s) == Words(rest) && Lead(rest) == "";
    assert Trail(rest) == Trail(s);
    assert "" + Hyphenated(rest) == Hyphenated(rest);
  }

  lemma TrailInside(s: string)
    requires |s| > 1 && Alnum(s[0]) && Alnum(s[1])
    ensures Trail(s[1..]) == Trail(s)
  {
    HyphenatedInside(s);
    assert Words(s) != [];
  }

  lemma Regroup(front: string, middle: string, back: string)
    ensures front + ("" + middle + back) == "" + (front + middle) + back
  {
  }

  lemma DashedInside(s: string)
    requires |s| > 1 && Alnum(s[0]) && Alnum(s[1]) && DashesWords(s[1..])
    ensures DashesWords(s)
  {
    HyphenatedInside(s);
    TrailInside(s);
    Regroup([s[0]], Hyphenated(s[1..]), Trail(s));
  }

  lemma DashedLastWord(s: string)
    requires |s| > 1 && Alnum(s[0]) && !Alnum(s[1]) && DashesWords(s[1..]) && Words(s[1..]) == []
    ensures DashesWords(s)
  {
    HyphenatedEnd(s);
    WordsEnd(s[1..]);
    assert s[|s| - 1] == s[1..][|s[1..]| - 1];
    assert Hyphenated(s) == [s[0]] && Lead(s) == "" && Trail(s) == "-";
    assert Dashed(s[1..]) == "-" + "" + "";
    assert [s[0]] + ("-" + "" + "") == "" + [s[0]] + "-";
  }

  lemma DashedWord(s: string)
    requires |s| > 1 && Alnum(s[0]) && !Alnum(s[1]) && DashesWords(s[1..]) && Words(s[1..]) != []
    ensures DashesWords(s)
  {
    HyphenatedEnd(s);
    var h, t := Hyphenated(s[1..]), Trail(s[1..]);
    assert s[|s| - 1] == s[1..][|s[1..]| - 1];
    assert Trail(s) == t && Lead(s) == "" && Lead(s[1..]) == "-";
    assert Dashed(s) == [s[0]] + ("-" + h + t);
    Regroups(s[0], h, t);
  }

  lemma Regroups(c: char, h: string, t: string)
    ensures [c] + ("-" + h + t) == "" + ([c] + "-" + h) + t
  {
  }

  lemma {:induction false} DashedWords(s: string)
    ensures DashesWords(s)
    decreases |s|
  {
    if s == "" {
      assert Words(s) == [];
    } else if !Alnum(s[0]) {
      DashedWords(SkipOther(s[1..]));
      DashedOther(s);
    } else if |s| == 1 {
      assert s[1..] == "" && Word("") == "" && Word(s) == s && Words("") == [];
      assert Words(s) == [s] && Dashed(s) == [s[0]] + "" == s;
      assert "" + s + "" == s;
    } else if Alnum(s[1]) {
      DashedWords(s[1..]);
      DashedInside(s);
    } else {
      DashedWords(s[1..]);
      if Words(s[1..]) == [] {
        DashedLastWord(s);
      } else {
        DashedWord(s);
      }
    }
  }

  /** A text without words consists of other characters only. */
  lemma {:induction false} WordsEnd(s: string)
    ensures Words(s) == [] && s != "" ==> !Alnum(s[|s| - 1])
    decreases |s|
  {
    if s != "" && !Alnum(s[0]) {
      WordsEnd(s[1..]);
    }
  }

  predicate WordLike(s: string) {
    s != "" && forall i :: 0 <= i < |s| ==> Alnum(s[i])
  }

  lemma {:induction false} WordIsAlnum(s: string)
    ensures forall i :: 0 <= i < |Word(s)| ==> Alnum(Word(s)[i])
  {
    if s != "" && Alnum(s[0]) {
      WordIsAlnum(s[1..]);
    }
  }

  lemma {:induction false} WordsAreWords(s: string)
    ensures forall i :: 0 <= i < |Words(s)| ==> WordLike(Words(s)[i])
    decreases |s|
  {
    if s == "" {
    } else if Alnum(s[0]) {
      WordIsAlnum(s);
      WordsAreWords(s[|Word(s)|..]);
    } else {
      WordsAreWords(s[1..]);
    }
  }

  lemma {:induction false} JoinEnds(words: seq<string>)
    requires |words| > 0 && forall i :: 0 <= i < |words| ==> WordLike(words[i])
    ensures var joined := Join(words, "-");
      joined != "" && Alnum(joined[0]) && Alnum(joined[|joined| - 1])
  {
    assert WordLike(words[0]);
    if |words| > 1 {
      JoinEnds(words[1..]);
      var rest := Join(words[1..], "-");
      var joined := words[0] + "-" + rest;
      assert joined[|joined| - 1] == rest[|rest| - 1];
    }
  }

  lemma TrimmedWords(s: string)
    ensures TrimRight(TrimLeft(Dashed(s))) == Hyphenated(s)
  {
    DashedWords(s);
    WordsAreWords(s);
    var h := Hyphenated(s);
    if Words(s) == [] {
      assert Dashed(s) == Lead(s);
      assert TrimLeft("-") == TrimLeft("-"[1..]) == "";
    } else {
      JoinEnds(Words(s));
      StripsLead(h + Trail(s), Lead(s));
      assert Dashed(s) == Lead(s) + (h + Trail(s));
      StripsTrail(h, Trail(s));
    }
  }

  lemma StripsLead(s: string, lead: string)
    requires s != "" && s[0] != '-' && (lead == "" || lead == "-")
    ensures TrimLeft(lead + s) == s
  {
    assert "" + s == s && ("-" + s)[1..] == s;
  }

  lemma StripsTrail(s: string, trail: string)
    requires s != "" && s[|s| - 1] != '-' && (trail == "" || trail == "-")
    ensures TrimRight(s + trail) == s
  {
    assert s + "" == s && (s + "-")[..|s|] == s;
  }

  /** Forty characters of a text, without a hyphen at the cut. */
  function Shortened(s: string): string {
    if |s| <= 40 then s else if s[39] == '-' then s[..39] else s[..40]
  }

  lemma CutIs(h: string)
    requires NoDouble(h) && (h == "" || h[|h| - 1] != '-')
    ensures TrimRight(Cut(h)) == Shortened(h)
  {
    if |h| > 40 && h[39] == '-' {
      assert h[38 + 1] == '-';
      StripsTrail(h[..39], "-");
      assert h[..39] + "-" == h[..40];
    }
  }

  /**
   A slug is the words of the folded name with single hyphens between them, all of
   them if that fits into forty characters and otherwise as much as fits.
   */
  lemma SlugifyIs(input: string, fold: string -> string)
    ensures Slugify(input, fold) == Shortened(Hyphenated(fold(input)))
  {
    var s := fold(input);
    var h := Hyphenated(s);
    TrimmedWords(s);
    DashedForm(s);
    TrimLeftForm(Dashed(s));
    TrimRightForm(TrimLeft(Dashed(s)));
    PrefixForm(TrimLeft(Dashed(s)), h);
    CollapseFixes(h);
    if h != "" {
      WordsAreWords(s);
      JoinEnds(Words(s));
    }
    CutIs(h);
  }

  /** A portal address: three to forty lower-case letters, digits and inner hyphens, and not a reserved word. */
  lemma ValidIff(slug: string)
    ensures ValidateSlug(slug) == None <==>
      && 3 <= |slug| <= 40
      && (forall i :: 0 <= i < |slug| ==> 'a' <= slug[i] <= 'z' || '0' <= slug[i] <= '9' || slug[i] == '-')
      && slug[0] != '-' && slug[|slug| - 1] != '-'
      && slug !in RESERVED_SLUGS
  {
  }

  /** A reserved word that would be an address otherwise is refused as reserved. */
  lemma ReservedRefused(slug: string)
    requires slug in RESERVED_SLUGS && 3 <= |slug| <= 40 && MatchesPattern(slug)
    ensures ValidateSlug(slug) == Some(Reserved)
  {
  }

  lemma AdminRefused()
    ensures ValidateSlug("admin") == Some(Reserved)
  {
    assert RESERVED_SLUGS[2] == "admin";
    ReservedRefused("admin");
  }
}
