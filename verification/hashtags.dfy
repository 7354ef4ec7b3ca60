/** Hashtag extraction and search-term parsing (src/cal_exporter/filters.py,
    `extract_hashtags`, `_normalize_hashtag`, `_parse_hashtag_groups`). */
module Hashtags {
  import opened Wrappers
  import opened PyStr

  /** A token the pattern `#\w+` matches: '#' then one or more word characters. */
  predicate IsHashtag(t: string) {
    |t| >= 2 && t[0] == '#' && forall i :: 1 <= i < |t| ==> IsWordChar(t[i])
  }

  /** `t` occurs in `s` at `i` and cannot be extended by a further word
      character: a maximal `#\w+` occurrence. */
  predicate MaximalAt(s: string, t: string, i: int) {
    0 <= i && i + |t| <= |s| && s[i..i + |t|] == t
    && (i + |t| == |s| || !IsWordChar(s[i + |t|]))
  }

  /** Length of the longest prefix of `s` made of word characters. */
  function WordRun(s: string): (n: nat)
    ensures n <= |s|
    ensures forall i :: 0 <= i < n ==> IsWordChar(s[i])
    ensures n == |s| || !IsWordChar(s[n])
    decreases |s|
  {
    if |s| > 0 && IsWordChar(s[0]) then 1 + WordRun(s[1..]) else 0
  }

  predicate TagStartsHere(s: string) {
    |s| >= 2 && s[0] == '#' && IsWordChar(s[1])
  }

  /** `re.findall(r'#\w+', s)`: scan left to right; at a '#' followed by a word
      character take the longest run of word characters and resume after it,
      otherwise move on by one character. */
  function Scan(s: string): seq<string>
    decreases |s|
  {
    if |s| == 0 then []
    else if TagStartsHere(s) then
      var n := 1 + WordRun(s[1..]);
      [s[..n]] + Scan(s[n..])
    else Scan(s[1..])
  }

  /** Everything the scan yields is a hashtag. */
  lemma {:induction false} ScanYieldsHashtags(s: string)
    ensures forall k :: 0 <= k < |Scan(s)| ==> IsHashtag(Scan(s)[k])
    decreases |s|
  {
    if |s| == 0 {
    } else if TagStartsHere(s) {
      var n := 1 + WordRun(s[1..]);
      ScanYieldsHashtags(s[n..]);
      var t := s[..n];
      assert forall i :: 1 <= i < |t| ==> IsWordChar(t[i]) by {
        forall i | 1 <= i < |t| ensures IsWordChar(t[i]) {
          assert t[i] == s[1..][i - 1];
        }
      }
      assert IsHashtag(t);
    } else {
      ScanYieldsHashtags(s[1..]);
    }
  }

  /** `extract_hashtags(text)`: `None` and `""` give no tags. */
  function ExtractHashtags(text: Option<string>): (r: seq<string>)
    ensures text.None? || text.value == "" ==> r == []
    ensures forall k :: 0 <= k < |r| ==> IsHashtag(r[k])
  {
    match text
    case None => []
    case Some(s) => if s == "" then [] else ScanYieldsHashtags(s); Scan(s)
  }

  lemma ExtractIsScan(text: Option<string>)
    ensures ExtractHashtags(text) == Scan(text.GetOr(""))
  {
  }

  /** The run length is the only length with the two properties `WordRun`
      promises. */
  lemma WordRunUnique(s: string, n: nat)
    requires n <= |s| && (forall i :: 0 <= i < n ==> IsWordChar(s[i]))
    requires n == |s| || !IsWordChar(s[n])
    ensures WordRun(s) == n
  {
  }

  lemma WordRunPrefix(x: string, b: string)
    requires WordRun(x) < |x| || |b| == 0 || !IsWordChar(b[0])
    ensures WordRun(x + b) == WordRun(x)
  {
    var n := WordRun(x);
    var s := x + b;
    assert forall i :: 0 <= i < n ==> s[i] == x[i];
    if n < |x| {
      assert s[n] == x[n];
    } else if |b| > 0 {
      assert s[n] == b[0];
    }
    WordRunUnique(s, n);
  }

  /** A text may be cut anywhere that is not followed by a word character:
      the tags of the whole are the tags of the left part then of the right. */
  lemma {:induction false} ScanAppend(a: string, b: string)
    requires |b| == 0 || !IsWordChar(b[0])
    ensures Scan(a + b) == Scan(a) + Scan(b)
    decreases |a|
  {
    if |a| == 0 {
      assert a + b == b;
    } else if TagStartsHere(a) {
      var n := 1 + WordRun(a[1..]);
      ScanAppend(a[n..], b);
      ScanAtTag(a);
      ScanTagUnfold(a, b);
      RegroupAppend(Scan(a + b), Scan(a), [a[..n]], Scan(a[n..]), Scan(b));
    } else {
      ScanAppend(a[1..], b);
      ScanSkipUnfold(a, b);
    }
  }

  /** The scan at a tag: the tag, then the scan of what follows it. */
  lemma ScanAtTag(s: string)
    requires TagStartsHere(s)
    ensures var n := 1 + WordRun(s[1..]);
      Scan(s) == [s[..n]] + Scan(s[n..])
  {
  }

  /** `ScanAtTag` with the tag and the remainder given by name. */
  lemma ScanAtTagTo(s: string, n: int, head: string, rest: string)
    requires TagStartsHere(s) && n == 1 + WordRun(s[1..])
    requires s[..n] == head && s[n..] == rest
    ensures Scan(s) == [head] + Scan(rest)
  {
    ScanAtTag(s);
  }

  /** The scan past a character that starts no tag. */
  lemma ScanPastChar(s: string)
    requires |s| > 0 && !TagStartsHere(s)
    ensures Scan(s) == Scan(s[1..])
  {
  }

  /** `ScanPastChar` with the remainder given by name. */
  lemma ScanPastCharTo(s: string, rest: string)
    requires |s| > 0 && !TagStartsHere(s) && s[1..] == rest
    ensures Scan(s) == Scan(rest)
  {
    ScanPastChar(s);
  }

  /** Appending `b` leaves the tag found at the front of `a` unchanged. */
  lemma ScanTagUnfold(a: string, b: string)
    requires |b| == 0 || !IsWordChar(b[0])
    requires TagStartsHere(a)
    ensures var n := 1 + WordRun(a[1..]);
      Scan(a + b) == [a[..n]] + Scan(a[n..] + b)
  {
    var s := a + b;
    var n := 1 + WordRun(a[1..]);
    assert s[0] == a[0] && s[1] == a[1];
    DropOfAppend(a, b, 1);
    WordRunPrefix(a[1..], b);
    TakeOfAppend(a, b, n);
    DropOfAppend(a, b, n);
    ScanAtTagTo(s, n, a[..n], a[n..] + b);
  }

  /** Appending `b` does not make the front of `a` start a tag. */
  lemma ScanSkipUnfold(a: string, b: string)
    requires |b| == 0 || !IsWordChar(b[0])
    requires |a| > 0 && !TagStartsHere(a)
    ensures Scan(a + b) == Scan(a[1..] + b)
  {
    NoTagAfterAppend(a, b);
    DropOfAppend(a, b, 1);
    ScanPastCharTo(a + b, a[1..] + b);
  }

  lemma NoTagAfterAppend(a: string, b: string)
    requires |b| == 0 || !IsWordChar(b[0])
    requires |a| > 0 && !TagStartsHere(a)
    ensures !TagStartsHere(a + b)
  {
    if |a| == 1 && a[0] == '#' {
      assert |b| == 0 || (a + b)[1] == b[0];
    } else if |a| >= 2 {
      assert (a + b)[1] == a[1];
    }
  }

  /** A single well-formed hashtag scans to itself. */
  lemma ScanHashtag(t: string)
    requires IsHashtag(t)
    ensures Scan(t) == [t]
  {
    assert TagStartsHere(t);
    var w := t[1..];
    assert forall k :: 0 <= k < |w| ==> w[k] == t[k + 1];
    WordRunUnique(w, |w|);
    ScanAtTagTo(t, |t|, t, "");
  }

  /** The tag the scan takes at the front of the text is a maximal occurrence. */
  lemma TagIsMaximal(s: string)
    requires TagStartsHere(s)
    ensures MaximalAt(s, s[..1 + WordRun(s[1..])], 0)
  {
    var n := 1 + WordRun(s[1..]);
    assert n == |s| || s[n] == s[1..][n - 1];
    assert s[0..n] == s[..n];
  }

  /** A maximal occurrence at `i` is one at `i - d` in the text less its first
      `d` characters. */
  lemma MaximalAtShift(s: string, t: string, i: int, d: int)
    requires MaximalAt(s, t, i) && 0 <= d <= i
    ensures MaximalAt(s[d..], t, i - d)
  {
    var r := s[d..];
    assert r[i - d..i - d + |t|] == s[i..i + |t|];
    assert i + |t| == |s| || r[i - d + |t|] == s[i + |t|];
  }

  /** The converse of `MaximalAtShift`. */
  lemma MaximalAtUnshift(s: string, t: string, j: int, d: int)
    requires 0 <= d <= |s| && MaximalAt(s[d..], t, j)
    ensures MaximalAt(s, t, d + j)
  {
    var r := s[d..];
    assert s[d + j..d + j + |t|] == r[j..j + |t|];
    assert j + |t| == |r| || s[d + j + |t|] == r[j + |t|];
  }

  /** Every tag in the result is a maximal `#\w+` occurrence in the text. */
  lemma {:induction false} ScanSound(s: string, t: string)
    requires t in Scan(s)
    ensures exists i :: MaximalAt(s, t, i)
    decreases |s|
  {
    if TagStartsHere(s) {
      var n := 1 + WordRun(s[1..]);
      ScanAtTag(s);
      if t == s[..n] {
        TagIsMaximal(s);
      } else {
        ScanSound(s[n..], t);
        var j :| MaximalAt(s[n..], t, j);
        MaximalAtUnshift(s, t, j, n);
      }
    } else {
      ScanPastChar(s);
      ScanSound(s[1..], t);
      var j :| MaximalAt(s[1..], t, j);
      MaximalAtUnshift(s, t, j, 1);
    }
  }

  /** Every maximal `#\w+` occurrence in the text is in the result. */
  lemma {:induction false} ScanComplete(s: string, t: string, i: int)
    requires IsHashtag(t) && MaximalAt(s, t, i)
    ensures t in Scan(s)
    decreases |s|
  {
    if TagStartsHere(s) {
      var n := 1 + WordRun(s[1..]);
      ScanAtTag(s);
      if i == 0 {
        TagAtStart(s, t);
      } else if i < n {
        NoHashInsideRun(s, i);
        assert false;
      } else {
        MaximalAtShift(s, t, i, n);
        ScanComplete(s[n..], t, i - n);
      }
    } else {
      if i == 0 {
        MaximalAtStart(s, t);
        assert false;
      } else {
        ScanPastChar(s);
        MaximalAtShift(s, t, i, 1);
        ScanComplete(s[1..], t, i - 1);
      }
    }
  }

  /** A maximal tag at the front of the text is the tag the scan takes there. */
  lemma TagAtStart(s: string, t: string)
    requires IsHashtag(t) && MaximalAt(s, t, 0)
    ensures TagStartsHere(s) && t == s[..1 + WordRun(s[1..])]
  {
    MaximalAtStart(s, t);
    var w := s[1..];
    assert forall k :: 0 <= k < |t| - 1 ==> w[k] == t[k + 1];
    assert |t| - 1 == |w| || w[|t| - 1] == s[|t|];
    WordRunUnique(w, |t| - 1);
    assert t == s[..|t|];
  }

  lemma NoHashInsideRun(s: string, i: int)
    requires |s| >= 1 && 0 < i < 1 + WordRun(s[1..])
    ensures s[i] != '#'
  {
    assert s[1..][i - 1] == s[i];
  }

  lemma MaximalAtStart(s: string, t: string)
    requires IsHashtag(t) && MaximalAt(s, t, 0)
    ensures TagStartsHere(s)
  {
    assert s[..|t|][1] == t[1];
  }


  /** The extracted tags are exactly the maximal `#\w+` occurrences. */
  lemma ScanMembership(s: string, t: string)
    ensures t in Scan(s) <==> IsHashtag(t) && exists i :: MaximalAt(s, t, i)
  {
    if t in Scan(s) {
      ScanSound(s, t);
    }
    if IsHashtag(t) && exists i :: MaximalAt(s, t, i) {
      var i :| MaximalAt(s, t, i);
      ScanComplete(s, t, i);
    }
  }

  // ---------------------------------------------------------------------------
  // Search terms

  /** `_normalize_hashtag`: strip, prefix a '#' if missing, lower-case. */
  function Normalize(tag: string): (r: string)
    ensures |r| >= 1 && r[0] == '#'
    ensures NoUpper(r)
    ensures |r| == 1 || !IsSpace(r[|r| - 1])
  {
    Lower(WithHash(Strip(tag)))
  }

  /** Prefix a '#' unless the text already starts with one. */
  function WithHash(t: string): (r: string)
    ensures |r| >= 1 && r[0] == '#'
    ensures |t| > 0 ==> r[|r| - 1] == t[|t| - 1]
  {
    if StartsWith(t, "#") then t else "#" + t
  }

  /** A tag that already has the normal shape is its own normal form. */
  lemma NormalShapeFixed(r: string)
    requires |r| >= 1 && r[0] == '#' && NoUpper(r)
    requires |r| == 1 || !IsSpace(r[|r| - 1])
    ensures Normalize(r) == r
  {
    StripTrimmed(r);
    assert r[..1] == "#";
    LowerOfLower(r);
  }

  lemma NormalizeIdempotent(tag: string)
    ensures Normalize(Normalize(tag)) == Normalize(tag)
  {
    NormalShapeFixed(Normalize(tag));
  }

  /** Normalisation ignores letter case. */
  lemma NormalizeIgnoresCase(tag: string)
    ensures Normalize(Lower(tag)) == Normalize(tag)
  {
    var t := Strip(tag);
    StripLower(tag);
    WithHashLower(t);
    LowerOfLower(WithHash(t));
  }

  lemma StripLower(s: string)
    ensures Strip(Lower(s)) == Lower(Strip(s))
  {
    StripLeftLower(s);
    StripRightLower(StripLeft(s));
  }

  lemma WithHashLower(t: string)
    ensures WithHash(Lower(t)) == Lower(WithHash(t))
  {
    if StartsWith(t, "#") {
      assert Lower(t)[..1] == "#";
    } else {
      assert !StartsWith(Lower(t), "#") by {
        if |t| > 0 {
          assert Lower(t)[..1] == [LowerChar(t[0])];
          assert t[..1] == [t[0]];
        }
      }
      LowerAppend("#", t);
      assert Lower("#") == "#";
    }
  }

  lemma StripLeftLower(s: string)
    ensures StripLeft(Lower(s)) == Lower(StripLeft(s))
  {
    var k := LeadingSpaces(s);
    LeadingSpacesUnique(Lower(s), k);
    assert Lower(s)[k..] == Lower(s[k..]);
  }

  lemma StripRightLower(s: string)
    ensures StripRight(Lower(s)) == Lower(StripRight(s))
  {
    var k := TrailingSpaces(s);
    TrailingSpacesUnique(Lower(s), k);
    assert Lower(s)[..|s| - k] == Lower(s[..|s| - k]);
  }

  /** A blank or empty piece normalises to the bare tag "#". */
  lemma NormalizeBlank(s: string)
    requires AllSpace(s)
    ensures Normalize(s) == "#"
  {
    StripBlank(s);
  }

  /** The '#' is optional: a bare trimmed word normalises like its tagged form. */
  lemma NormalizeAddsHash(word: string)
    requires |word| > 0 && word[0] != '#'
    requires !IsSpace(word[0]) && !IsSpace(word[|word| - 1])
    ensures Normalize(word) == Normalize("#" + word)
  {
    StripTrimmed(word);
    StripTrimmed("#" + word);
  }

  /** One AND-group: the normalised comma pieces of one search term. */
  function TermGroup(term: string): (r: set<string>)
    ensures r == (set p | p in Split(term, ',') :: Normalize(p))
  {
    if ',' in term then (set p | p in Split(term, ',') :: Normalize(p))
    else NormalizedSingleton(term); {Normalize(term)}
  }

  /** Both branches of `TermGroup` compute the same set, whose members are all
      in normal form. */
  lemma TermGroupSpec(term: string)
    ensures TermGroup(term) == (set p | p in Split(term, ',') :: Normalize(p))
    ensures Normalize(Split(term, ',')[0]) in TermGroup(term)
    ensures forall x :: x in TermGroup(term) ==> Normalize(x) == x
  {
    TermGroupBranches(term);
    NormalizedSet(Split(term, ','));
  }

  lemma TermGroupBranches(term: string)
    ensures TermGroup(term) == (set p | p in Split(term, ',') :: Normalize(p))
  {
    if ',' !in term {
      NormalizedSingleton(term);
    }
  }

  lemma NormalizedSingleton(term: string)
    ensures (set p | p in [term] :: Normalize(p)) == {Normalize(term)}
  {
    var g := set p | p in [term] :: Normalize(p);
    assert Normalize(term) in g by {
      assert term in [term];
    }
    forall x | x in g
      ensures x == Normalize(term)
    {
    }
  }


  lemma NormalizedSet(pieces: seq<string>)
    requires |pieces| >= 1
    ensures Normalize(pieces[0]) in (set p | p in pieces :: Normalize(p))
    ensures forall x :: x in (set p | p in pieces :: Normalize(p)) ==> Normalize(x) == x
  {
    assert pieces[0] in pieces;
    forall x | x in (set p | p in pieces :: Normalize(p)) ensures Normalize(x) == x {
      var p :| p in pieces && x == Normalize(p);
      NormalizeIdempotent(p);
    }
  }

  /** A term's group does not depend on the letter case of the term. */
  lemma TermGroupIgnoresCase(term: string)
    ensures TermGroup(Lower(term)) == TermGroup(term)
  {
    TermGroupBranches(term);
    TermGroupBranches(Lower(term));
    SplitLower(term, ',');
    NormalizedLowerEach(Split(term, ','));
  }

  lemma NormalizedLowerEach(pieces: seq<string>)
    ensures (set p | p in LowerEach(pieces) :: Normalize(p)) == (set p | p in pieces :: Normalize(p))
  {
    LoweredNormalsIncluded(pieces);
    NormalsIncludedLowered(pieces);
  }

  lemma LoweredNormalsIncluded(pieces: seq<string>)
    ensures (set p | p in LowerEach(pieces) :: Normalize(p)) <= (set p | p in pieces :: Normalize(p))
  {
    var lowered := LowerEach(pieces);
    var g := set p | p in pieces :: Normalize(p);
    var h := set p | p in lowered :: Normalize(p);
    forall x | x in h
      ensures x in g
    {
      var k :| 0 <= k < |lowered| && x == Normalize(lowered[k]);
      NormalizeIgnoresCase(pieces[k]);
      assert pieces[k] in pieces;
    }
  }

  lemma NormalsIncludedLowered(pieces: seq<string>)
    ensures (set p | p in pieces :: Normalize(p)) <= (set p | p in LowerEach(pieces) :: Normalize(p))
  {
    var lowered := LowerEach(pieces);
    var g := set p | p in pieces :: Normalize(p);
    var h := set p | p in lowered :: Normalize(p);
    forall x | x in g
      ensures x in h
    {
      var k :| 0 <= k < |pieces| && x == Normalize(pieces[k]);
      NormalizeIgnoresCase(pieces[k]);
      assert lowered[k] in lowered;
    }
  }


  /** `_parse_hashtag_groups`: one AND-group per search term, in order. The two
      branches of the source agree, so each group is the set of normalised
      comma pieces of its term. */
  function ParseGroups(terms: seq<string>): (r: seq<set<string>>)
    ensures |r| == |terms|
    ensures forall i :: 0 <= i < |r| ==> r[i] == (set p | p in Split(terms[i], ',') :: Normalize(p))
    ensures forall i, x :: 0 <= i < |r| && x in r[i] ==> |x| >= 1 && x[0] == '#' && NoUpper(x) && Normalize(x) == x
    ensures forall i :: 0 <= i < |r| ==> r[i] != {}
  {
    var r := seq(|terms|, i requires 0 <= i < |terms| => TermGroup(terms[i]));
    forall i | 0 <= i < |r|
      ensures r[i] == (set p | p in Split(terms[i], ',') :: Normalize(p))
      ensures r[i] != {}
      ensures forall x :: x in r[i] ==> Normalize(x) == x
    {
      TermGroupSpec(terms[i]);
    }
    r
  }

  // ---------------------------------------------------------------------------
  // Matching

  /** Search terms match case-insensitively: lower-casing every term gives
      the same groups. */
  lemma ParseGroupsIgnoresCase(terms: seq<string>)
    ensures ParseGroups(LowerEach(terms)) == ParseGroups(terms)
  {
    var lowered := LowerEach(terms);
    forall i | 0 <= i < |terms|
      ensures ParseGroups(lowered)[i] == ParseGroups(terms)[i]
    {
      TermGroupBranches(terms[i]);
      TermGroupBranches(lowered[i]);
      TermGroupIgnoresCase(terms[i]);
    }
  }

  /** A single word without '#' selects what `#word` selects. */
  lemma ParseGroupsAddsHash(word: string)
    requires |word| > 0 && word[0] != '#' && ',' !in word
    requires !IsSpace(word[0]) && !IsSpace(word[|word| - 1])
    ensures ParseGroups([word]) == ParseGroups(["#" + word])
  {
    NormalizeAddsHash(word);
    assert ',' !in "#" + word;
    assert TermGroup(word) == TermGroup("#" + word);
  }

  /** The lower-cased set of an event's tags. */
  function LowerSet(tags: seq<string>): set<string> {
    set t | t in tags :: Lower(t)
  }

  /** OR over the groups of AND within a group. */
  predicate GroupsMatch(groups: seq<set<string>>, tags: seq<string>) {
    exists i :: 0 <= i < |groups| && groups[i] <= LowerSet(tags)
  }

  /** A group holding the bare tag "#" never matches extracted tags, because
      every extracted tag has at least one word character after the '#'. */
  lemma BareHashNeverMatches(group: set<string>, text: Option<string>)
    requires "#" in group
    ensures !(group <= LowerSet(ExtractHashtags(text)))
  {
  }

  /** An empty or blank comma piece ("a,,b", "a, ,b") normalises to "#", so
      such a search term matches no event at all. */
  lemma BlankPieceNeverMatches(term: string, text: Option<string>)
    requires exists k :: 0 <= k < |Split(term, ',')| && AllSpace(Split(term, ',')[k])
    ensures !GroupsMatch(ParseGroups([term]), ExtractHashtags(text))
  {
    var k :| 0 <= k < |Split(term, ',')| && AllSpace(Split(term, ',')[k]);
    var p := Split(term, ',')[k];
    NormalizeBlank(p);
    var g := ParseGroups([term])[0];
    assert "#" in g;
    BareHashNeverMatches(g, text);
  }

  /** A tag in normal form: '#', no upper-case letter, no comma, and no
      trailing blank. */
  predicate IsNormalTag(t: string) {
    |t| >= 1 && t[0] == '#' && NoUpper(t) && ',' !in t && !IsSpace(t[|t| - 1])
  }

  /** A blank margin around a tag does not change its normal form. */
  lemma NormalizePadded(pre: string, core: string, post: string)
    requires AllSpace(pre) && AllSpace(post)
    requires |core| > 0 && !IsSpace(core[0]) && !IsSpace(core[|core| - 1])
    ensures Normalize(pre + core + post) == Normalize(core)
  {
    StripPadded(pre, core, post);
    StripTrimmed(core);
  }

  /** A lower-case word without '#' normalises to the word behind a '#'. */
  lemma NormalizeBareWord(word: string)
    requires |word| > 0 && word[0] != '#' && NoUpper(word)
    requires !IsSpace(word[0]) && !IsSpace(word[|word| - 1])
    ensures Normalize(word) == "#" + word
  {
    NormalizeAddsHash(word);
    NormalShapeFixed("#" + word);
  }

  /** A term naming one normal tag is the group of that tag alone. */
  lemma SingleTermGroup(c: string)
    requires IsNormalTag(c)
    ensures TermGroup(c) == {c}
  {
    NormalShapeFixed(c);
  }

  /** A term `a, b` of two normal tags is the AND-group {a, b}. */
  lemma PairTermGroup(a: string, b: string)
    requires IsNormalTag(a) && IsNormalTag(b)
    ensures TermGroup(a + ", " + b) == {a, b}
  {
    PairPieces(a, b);
    TermGroupBranches(a + ", " + b);
    PairNormalized(a, b);
  }

  lemma PairPieces(a: string, b: string)
    requires IsNormalTag(a) && IsNormalTag(b)
    ensures Split(a + ", " + b, ',') == [a, " " + b]
  {
    var pieces := [a, " " + b];
    assert Join(pieces, [',']) == a + ", " + b by {
      assert pieces[1..] == [" " + b];
    }
    SplitJoin(pieces, ',');
  }

  lemma PairNormalized(a: string, b: string)
    requires IsNormalTag(a) && IsNormalTag(b)
    ensures (set p | p in [a, " " + b] :: Normalize(p)) == {a, b}
  {
    NormalShapeFixed(a);
    BlankPrefixedTag(b);
    TwoPieceSet(a, " " + b);
  }

  lemma BlankPrefixedTag(b: string)
    requires IsNormalTag(b)
    ensures Normalize(" " + b) == b
  {
    NormalShapeFixed(b);
    assert " " + b == " " + b + "";
    NormalizePadded(" ", b, "");
  }

  lemma TwoPieceSet(x: string, y: string)
    ensures (set p | p in [x, y] :: Normalize(p)) == {Normalize(x), Normalize(y)}
  {
    var pieces := [x, y];
    assert pieces[0] == x && pieces[1] == y;
    assert forall p :: p in pieces <==> p == x || p == y;
  }

  /** The combined AND/OR shape of the test suite, `-s 'A, B' -s C`, is
      `(A AND B) OR C`. */
  lemma ParseGroupsPairOr(a: string, b: string, c: string)
    requires IsNormalTag(a) && IsNormalTag(b) && IsNormalTag(c)
    ensures ParseGroups([a + ", " + b, c]) == [{a, b}, {c}]
  {
    PairTermGroup(a, b);
    SingleTermGroup(c);
  }

  lemma ParseGroupsExample()
    ensures ParseGroups(["#zzp, #work", "#meeting"]) == [{"#zzp", "#work"}, {"#meeting"}]
  {
    assert "#zzp, #work" == "#zzp" + ", " + "#work";
    ParseGroupsPairOr("#zzp", "#work", "#meeting");
  }
}
