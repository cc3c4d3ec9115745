/** The pure helpers of the article loader: file names and slugs, the read
    time shown for an article, and the choice of the file that holds the
    article for a slug. */
module Articles {
  import opened Text
  import opened Wrappers

  // ---------------------------------------------------------------------
  // File names
  // ---------------------------------------------------------------------

  /** Whether a directory entry is an article source: a name ending in
      ".mdx" or ".md". */
  predicate IsMdxFile(filename: string) {
    EndsWith(filename, ".mdx") || EndsWith(filename, ".md")
  }

  /** The slug of a file name: the name without one trailing ".mdx" or
      ".md" (the pattern /\.mdx?$/); any other name is returned unchanged. */
  function ToSlug(filename: string): (slug: string)
    ensures EndsWith(filename, ".mdx") ==> slug + ".mdx" == filename
    ensures !EndsWith(filename, ".mdx") && EndsWith(filename, ".md") ==> slug + ".md" == filename
    ensures !IsMdxFile(filename) ==> slug == filename
  {
    if EndsWith(filename, ".mdx") then filename[..|filename| - 4]
    else if EndsWith(filename, ".md") then filename[..|filename| - 3]
    else filename
  }

  /** Round trip: the slug of `s` + ".md" and of `s` + ".mdx" is `s`, so
      exactly one extension is removed. */
  lemma ToSlugOfExtension(s: string)
    ensures ToSlug(s + ".md") == s
    ensures ToSlug(s + ".mdx") == s
  {
    var md := s + ".md";
    var mdx := s + ".mdx";
    assert !EndsWith(md, ".mdx") by {
      if |md| >= 4 {
        assert md[|md| - 4..][3] == md[|md| - 1] == 'd';
      }
    }
    assert md[|md| - 3..] == ".md";
    assert mdx[|mdx| - 4..] == ".mdx";
    assert md[..|md| - 3] == s;
    assert mdx[..|mdx| - 4] == s;
  }

  /** A name is an article source exactly when taking its slug changes it,
      and then it is its slug followed by one of the two extensions. */
  lemma ToSlugStripsIffMdx(filename: string)
    ensures IsMdxFile(filename) <==> ToSlug(filename) != filename
    ensures IsMdxFile(filename) ==>
              filename == ToSlug(filename) + ".md" || filename == ToSlug(filename) + ".mdx"
  {
    if IsMdxFile(filename) {
      assert |ToSlug(filename)| < |filename|;
    }
  }

  // ---------------------------------------------------------------------
  // Slugs
  // ---------------------------------------------------------------------

  /** A character a slug may hold before lower-casing. */
  predicate IsSlugChar(c: char) {
    IsSafeNameChar(c) || IsUpper(c)
  }

  /** Lower-casing a character yields a safe-name character exactly when
      the character is a slug character. */
  lemma LowerCharSafe(c: char)
    ensures IsSafeNameChar(LowerChar(c)) <==> IsSlugChar(c)
  {
  }

  /** The lower-cased form of a text matches the safe pattern exactly when
      the text is non-empty and made of slug characters. */
  lemma LowerSafe(t: string)
    ensures MatchesSafeName(Lower(t)) <==> t != [] && forall i :: 0 <= i < |t| ==> IsSlugChar(t[i])
  {
    var l := Lower(t);
    assert forall i :: 0 <= i < |t| ==> (IsSafeNameChar(l[i]) <==> IsSlugChar(t[i]));
  }

  /** Trims and lower-cases a requested slug and accepts it only if the
      result matches /^[a-z0-9-]+$/; otherwise the error names the slug as
      it was given. */
  function NormalizeSlug(slug: string): (r: Result<string>)
    ensures var t := Trim(slug);
            r.Ok? <==> t != [] && forall i :: 0 <= i < |t| ==> IsSlugChar(t[i])
    ensures r.Ok? ==> r.value == Lower(Trim(slug)) && MatchesSafeName(r.value)
    ensures r.Err? ==> r.error == "Invalid slug: " + slug
  {
    var normalized := Lower(Trim(slug));
    LowerSafe(Trim(slug));
    if MatchesSafeName(normalized) then Ok(normalized) else Err("Invalid slug: " + slug)
  }

  /** A normalised slug normalises to itself. */
  lemma NormalizeSlugIdempotent(slug: string)
    requires NormalizeSlug(slug).Ok?
    ensures NormalizeSlug(NormalizeSlug(slug).value) == NormalizeSlug(slug)
  {
    var s := NormalizeSlug(slug).value;
    SafeNameClasses(s);
    TrimOfTrimmed(s);
    LowerOfNoUpper(s);
  }

  // ---------------------------------------------------------------------
  // Read time
  // ---------------------------------------------------------------------

  /** The reading speed the read time assumes. */
  const WordsPerMinute := 180

  /** Whole minutes needed for `words` words: the ceiling of the quotient. */
  function ReadMinutes(words: nat): (minutes: nat)
    ensures words <= minutes * WordsPerMinute < words + WordsPerMinute
  {
    (words + WordsPerMinute - 1) / WordsPerMinute
  }

  /** The read time of text whose markup has been stripped: its words are
      the maximal runs of non-white-space, and the minutes they need are
      written as a decimal numeral followed by " min read". */
  function ReadTime(plainText: string): (t: string)
    ensures |t| > 9 && EndsWith(t, " min read")
    ensures AllDigits(t[..|t| - 9]) && (|t| > 10 ==> t[0] != '0')
    ensures DecimalValue(t[..|t| - 9]) == ReadMinutes(|Words(plainText)|)
  {
    var minutes := ReadMinutes(|Words(plainText)|);
    DecimalRoundTrip(minutes);
    var t := Decimal(minutes) + " min read";
    assert t[..|t| - 9] == Decimal(minutes);
    assert t[0] == Decimal(minutes)[0];
    t
  }

  /** The read time counts words however they are spaced: for words joined
      by single spaces it depends only on how many there are. */
  lemma ReadTimeOfWords(ws: seq<string>)
    requires WellFormedWords(ws)
    ensures ReadTime(JoinWords(ws)) == Decimal(ReadMinutes(|ws|)) + " min read"
  {
    WordsOfJoin(ws);
  }

  /** Text without words reads in no time. */
  lemma ReadTimeOfBlank(plainText: string)
    requires AllSpace(plainText)
    ensures ReadTime(plainText) == "0 min read"
  {
    WordsOfBlank(plainText);
    assert ReadMinutes(0) == 0;
    assert Decimal(0) == "0";
    assert "0" + " min read" == "0 min read";
  }

  /** `n` copies of one word. */
  lemma RepeatedWord(n: nat)
    ensures WellFormedWords(seq(n, _ => "word"))
  {
    assert NoSpace("word");
  }

  /** 180 words take one minute; the 181st starts a second one. */
  lemma ReadTimeAtBoundary()
    ensures ReadTime(JoinWords(seq(180, _ => "word"))) == "1 min read"
    ensures ReadTime(JoinWords(seq(181, _ => "word"))) == "2 min read"
  {
    RepeatedWord(180);
    RepeatedWord(181);
    ReadTimeOfWords(seq(180, _ => "word"));
    ReadTimeOfWords(seq(181, _ => "word"));
    MinutesAtBoundary();
  }

  lemma MinutesAtBoundary()
    ensures Decimal(ReadMinutes(180)) + " min read" == "1 min read"
    ensures Decimal(ReadMinutes(181)) + " min read" == "2 min read"
  {
    assert ReadMinutes(180) == 1 && ReadMinutes(181) == 2;
    assert Decimal(1) == "1" && Decimal(2) == "2";
  }

  // ---------------------------------------------------------------------
  // Locating the article file
  // ---------------------------------------------------------------------

  /** `path.resolve(dir, name)` for a resolved directory and a name that
      holds no separator: the name appended after one separator. A
      resolved directory ends in the separator only when it is the root. */
  function ResolvePath(dir: string, name: string): (p: string)
    ensures EndsWith(dir, "/") ==> p == dir + name
    ensures !EndsWith(dir, "/") ==> p == dir + "/" + name
  {
    if EndsWith(dir, "/") then dir + name else dir + "/" + name
  }

  /** The containment guard: the path lies below the directory followed
      by a separator. */
  predicate Inside(dir: string, p: string) {
    StartsWith(p, dir + "/")
  }

  /** The file names tried for a slug, in the order they are tried. */
  function Candidates(slug: string): (names: seq<string>)
    ensures |names| == 2 && names[0] == slug + ".mdx" && names[1] == slug + ".md"
  {
    [slug + ".mdx", slug + ".md"]
  }

  /** The first name whose resolved path passes the guard and exists. */
  function Lookup(dir: string, names: seq<string>, existing: set<string>): Option<string>
  {
    if names == [] then None
    else
      var p := ResolvePath(dir, names[0]);
      if Inside(dir, p) && p in existing then Some(p) else Lookup(dir, names[1..], existing)
  }

  /** What the lookup finds is the resolved path of one of the names, it
      exists and passes the guard; it finds nothing exactly when no name
      resolves to such a path. */
  lemma {:induction false} LookupSound(dir: string, names: seq<string>, existing: set<string>)
    ensures var r := Lookup(dir, names, existing);
            r.Some? ==> r.value in existing && Inside(dir, r.value)
                        && exists i :: 0 <= i < |names| && r.value == ResolvePath(dir, names[i])
    ensures Lookup(dir, names, existing).None? <==> forall i :: 0 <= i < |names| ==>
              var p := ResolvePath(dir, names[i]); !Inside(dir, p) || p !in existing
  {
    if names != [] {
      LookupSound(dir, names[1..], existing);
      assert forall i :: 1 <= i < |names| ==> names[i] == names[1..][i - 1];
    }
  }

  /** One step of the lookup from position `i` of the names. */
  lemma LookupStep(dir: string, names: seq<string>, i: nat, existing: set<string>)
    requires i < |names|
    ensures var p := ResolvePath(dir, names[i]);
            Lookup(dir, names[i..], existing)
              == if Inside(dir, p) && p in existing then Some(p)
                 else Lookup(dir, names[i + 1..], existing)
  {
    assert names[i..][1..] == names[i + 1..];
  }

  lemma LookupEnd(dir: string, names: seq<string>, existing: set<string>)
    ensures Lookup(dir, names[|names|..], existing) == None
  {
    assert names[|names|..] == [];
  }

  /** Below a directory that does not end in the separator, every name
      resolves to a path the guard accepts. */
  lemma ResolvedInside(dir: string, name: string)
    requires !EndsWith(dir, "/")
    ensures Inside(dir, ResolvePath(dir, name))
  {
    var p := ResolvePath(dir, name);
    assert p[..|dir| + 1] == dir + "/";
  }

  /** Below a resolved directory other than the root, ".mdx" is preferred,
      ".md" is the fallback, and no file gives no path. */
  lemma LookupOrder(dir: string, slug: string, existing: set<string>)
    requires !EndsWith(dir, "/")
    ensures var mdx := dir + "/" + slug + ".mdx";
            var md := dir + "/" + slug + ".md";
            Lookup(dir, Candidates(slug), existing)
              == if mdx in existing then Some(mdx)
                 else if md in existing then Some(md)
                 else None
  {
    var names := Candidates(slug);
    ResolvedInside(dir, names[0]);
    ResolvedInside(dir, names[1]);
    assert dir + "/" + (slug + ".mdx") == dir + "/" + slug + ".mdx";
    assert dir + "/" + (slug + ".md") == dir + "/" + slug + ".md";
    assert names[0..] == names;
    LookupStep(dir, names, 0, existing);
    LookupStep(dir, names, 1, existing);
    LookupEnd(dir, names, existing);
  }

  /** At the root the resolved path of a safe slug lacks the doubled
      separator the guard asks for, so nothing is ever found there. This
      is the only directory on which the guard rejects a candidate; the
      source always passes the `content/writing` directory below the
      working directory (apps/web/src/lib/articles.ts:6), which is never
      the root, so there the guard never fires (`ResolvedInside`). */
  lemma LookupAtRoot(slug: string, existing: set<string>)
    requires MatchesSafeName(slug)
    ensures Lookup("/", Candidates(slug), existing) == None
  {
    var names := Candidates(slug);
    LookupSound("/", names, existing);
    forall i | 0 <= i < |names|
      ensures !Inside("/", ResolvePath("/", names[i]))
    {
      var p := ResolvePath("/", names[i]);
      assert p[1] == names[i][0] == slug[0];
      assert p[..2] != "//" by {
        assert p[..2][1] == slug[0];
      }
    }
  }

  /** The path of the article for `slug` among the `existing` files below
      `contentDir`: an invalid slug is an error raised before any lookup;
      otherwise the candidates are tried in order, a path outside the
      directory is skipped, and the first existing one is returned. */
  method ResolveArticlePath(slug: string, contentDir: string, existing: set<string>)
    returns (r: Result<Option<string>>)
    ensures NormalizeSlug(slug).Err? ==> r == Err(NormalizeSlug(slug).error)
    ensures NormalizeSlug(slug).Ok? ==>
              r == Ok(Lookup(contentDir, Candidates(NormalizeSlug(slug).value), existing))
  {
    var normalized := NormalizeSlug(slug);
    if normalized.Err? {
      return Err(normalized.error);
    }
    var candidates := Candidates(normalized.value);
    for i := 0 to |candidates|
      invariant Lookup(contentDir, candidates[i..], existing)
                == Lookup(contentDir, candidates, existing)
    {
      LookupStep(contentDir, candidates, i, existing);
      var resolved := ResolvePath(contentDir, candidates[i]);
      if !Inside(contentDir, resolved) {
        continue;
      }
      if resolved in existing {
        return Ok(Some(resolved));
      }
    }
    LookupEnd(contentDir, candidates, existing);
    return Ok(None);
  }
}
