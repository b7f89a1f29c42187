/** The game-map search route: the query is split into lower-case tokens,
    each token becomes a word-start pattern with its regex metacharacters
    escaped, and image file names are turned into CDN URLs. */
module GameMaps {
  import opened Strings
  import opened Marks

  const AfmCdnBase: string := "https://cdn.albionfreemarket.com/AlbionWorld/map/images"

  /** The characters of the class `[.*+?^${}()|[\]\\]`. */
  predicate IsRegexSpecial(c: char) {
    c in ".*+?^${}()|[]\\"
  }

  function CountSpecial(s: string): nat {
    if s == [] then 0 else (if IsRegexSpecial(s[0]) then 1 else 0) + CountSpecial(s[1..])
  }

  /** `escapeRegex`: a backslash before every metacharacter, every other
      character unchanged. */
  function EscapeRegex(s: string): (r: string)
    ensures |r| == |s| + CountSpecial(s)
  {
    if s == [] then []
    else (if IsRegexSpecial(s[0]) then ['\\', s[0]] else [s[0]]) + EscapeRegex(s[1..])
  }

  /** Drops the backslash in front of each escaped character. */
  function Unescape(t: string): string {
    if t == [] then []
    else if |t| >= 2 && t[0] == '\\' then [t[1]] + Unescape(t[2..])
    else [t[0]] + Unescape(t[1..])
  }

  /** `t` reads as a regex that matches itself literally: it is a run of
      plain characters and backslash-escaped metacharacters. */
  predicate WellEscaped(t: string) {
    if t == [] then true
    else if IsRegexSpecial(t[0]) then
      t[0] == '\\' && |t| >= 2 && IsRegexSpecial(t[1]) && WellEscaped(t[2..])
    else WellEscaped(t[1..])
  }

  /** Dropping each inserted backslash gives the input back. */
  lemma {:induction false} EscapeRoundTrip(s: string)
    ensures Unescape(EscapeRegex(s)) == s
  {
    if s != [] {
      var rest := EscapeRegex(s[1..]);
      EscapeRoundTrip(s[1..]);
      if IsRegexSpecial(s[0]) {
        assert (['\\', s[0]] + rest)[2..] == rest;
      } else {
        assert ([s[0]] + rest)[1..] == rest;
      }
    }
  }

  /** Every metacharacter of the output is escaped. */
  lemma {:induction false} EscapeIsWellEscaped(s: string)
    ensures WellEscaped(EscapeRegex(s))
  {
    if s != [] {
      var rest := EscapeRegex(s[1..]);
      EscapeIsWellEscaped(s[1..]);
      if IsRegexSpecial(s[0]) {
        assert (['\\', s[0]] + rest)[2..] == rest;
      } else {
        assert ([s[0]] + rest)[1..] == rest;
      }
    }
  }

  /** A string without metacharacters is its own escape. */
  lemma {:induction false} EscapeIdentity(s: string)
    requires forall i :: 0 <= i < |s| ==> !IsRegexSpecial(s[i])
    ensures EscapeRegex(s) == s
  {
    if s != [] {
      EscapeIdentity(s[1..]);
    }
  }

  /** `toImageUrl`: the file on the CDN, with a `.png` name turned into the
      `.webp` of the same stem. */
  function ToImageUrl(imageFile: string): (url: string)
    ensures AfmCdnBase + "/" <= url
    ensures EndsWith(imageFile, ".png") ==> url == AfmCdnBase + "/" + imageFile[..|imageFile| - 4] + ".webp"
    ensures !EndsWith(imageFile, ".png") ==> url == AfmCdnBase + "/" + imageFile
  {
    var file := if EndsWith(imageFile, ".png") then imageFile[..|imageFile| - 4] + ".webp" else imageFile;
    AfmCdnBase + "/" + file
  }

  /** No URL built by `toImageUrl` names a `.png` file. */
  lemma ImageUrlNeverPng(imageFile: string)
    ensures !EndsWith(ToImageUrl(imageFile), ".png")
  {
    var url := ToImageUrl(imageFile);
    var n := |url|;
    if EndsWith(imageFile, ".png") {
      assert url[n - 2] == 'b';
    } else if |imageFile| >= 4 {
      assert url[n - 4..] == imageFile[|imageFile| - 4..];
    } else {
      var head := AfmCdnBase + "/";
      assert url == head + imageFile;
      assert head[|head| - 1] == '/';
      assert url[n - 4 + (3 - |imageFile|)] == head[|head| - 1];
    }
  }

  /** `s.split(/\s+/)`: the pieces between maximal runs of whitespace;
      `cur` is the piece being read. */
  function SplitFrom(s: string, cur: string): (pieces: seq<string>)
    ensures |pieces| >= 1 && cur <= pieces[0]
    decreases |s|
  {
    if s == [] then [cur]
    else if IsWhitespace(s[0]) then [cur] + SplitFrom(TrimStart(s), "")
    else SplitFrom(s[1..], cur + [s[0]])
  }

  /** The maximal runs of whitespace of `s`, in order: the separators that
      `split(/\s+/)` removes. */
  function Separators(s: string): (gaps: seq<string>)
    ensures forall k :: 0 <= k < |gaps| ==> gaps[k] != [] && AllWhitespace(gaps[k])
    decreases |s|
  {
    if s == [] then []
    else if IsWhitespace(s[0]) then
      var rest := TrimStart(s);
      [s[..|s| - |rest|]] + Separators(rest)
    else Separators(s[1..])
  }

  /** The pieces with the separators put back between them. */
  function Join(pieces: seq<string>, gaps: seq<string>): string
    requires |pieces| == |gaps| + 1
    decreases |gaps|
  {
    if gaps == [] then pieces[0] else pieces[0] + gaps[0] + Join(pieces[1..], gaps[1..])
  }

  /** `.filter(Boolean)`: the non-empty pieces. */
  function NonEmpty(pieces: seq<string>): (r: seq<string>)
    ensures forall k :: 0 <= k < |r| ==> r[k] != ""
    ensures forall k :: 0 <= k < |r| ==> r[k] in pieces
    ensures |r| <= |pieces|
  {
    if pieces == [] then []
    else if pieces[0] == "" then NonEmpty(pieces[1..])
    else [pieces[0]] + NonEmpty(pieces[1..])
  }

  /** The query's search tokens: trimmed, lower-cased, split on whitespace,
      empty pieces dropped. */
  function Tokens(query: string): (tokens: seq<string>)
    ensures forall k :: 0 <= k < |tokens| ==> tokens[k] != ""
  {
    NonEmpty(SplitFrom(ToLower(Trim(query)), ""))
  }

  function Concat(pieces: seq<string>): string {
    if pieces == [] then [] else pieces[0] + Concat(pieces[1..])
  }

  lemma ConcatCons(head: string, tail: seq<string>)
    ensures Concat([head] + tail) == head + Concat(tail)
  {
    assert ([head] + tail)[1..] == tail;
  }

  /** The characters of `s` that are not whitespace, in order. */
  function Squeeze(s: string): (r: string)
    ensures r == [] <==> AllWhitespace(s)
  {
    if s == [] then []
    else
      var rest := Squeeze(s[1..]);
      assert AllWhitespace(s) <==> IsWhitespace(s[0]) && AllWhitespace(s[1..]);
      (if IsWhitespace(s[0]) then [] else [s[0]]) + rest
  }

  lemma {:induction false} SqueezeLeadingWhitespace(s: string)
    ensures Squeeze(TrimStart(s)) == Squeeze(s)
    decreases |s|
  {
    if s != [] && IsWhitespace(s[0]) {
      SqueezeLeadingWhitespace(s[1..]);
    }
  }

  /** Splitting loses only whitespace: the pieces put back together are the
      piece being read followed by the non-blank characters of the rest. */
  lemma {:induction false} SplitConcat(s: string, cur: string)
    ensures Concat(SplitFrom(s, cur)) == cur + Squeeze(s)
    decreases |s|
  {
    if s == [] {
      ConcatCons(cur, []);
    } else if IsWhitespace(s[0]) {
      var rest := TrimStart(s);
      assert SplitFrom(s, cur) == [cur] + SplitFrom(rest, "");
      SplitConcat(rest, "");
      assert "" + Squeeze(rest) == Squeeze(rest);
      SqueezeLeadingWhitespace(s);
      ConcatCons(cur, SplitFrom(rest, ""));
    } else {
      var cur' := cur + [s[0]];
      assert SplitFrom(s, cur) == SplitFrom(s[1..], cur');
      assert Squeeze(s) == [s[0]] + Squeeze(s[1..]);
      SplitConcat(s[1..], cur');
      assert cur + Squeeze(s) == cur' + Squeeze(s[1..]);
    }
  }

  /** Splitting cuts exactly at the whitespace runs: there is one more piece
      than there are runs, and the pieces with the runs put back between
      them give the input again. */
  lemma {:induction false} SplitJoin(s: string, cur: string)
    ensures |SplitFrom(s, cur)| == |Separators(s)| + 1
    ensures Join(SplitFrom(s, cur), Separators(s)) == cur + s
    decreases |s|
  {
    if s == [] {
      assert SplitFrom(s, cur) == [cur];
    } else if IsWhitespace(s[0]) {
      SplitJoin(TrimStart(s), "");
      SplitJoinGap(s, cur);
    } else {
      var cur' := cur + [s[0]];
      SplitAtChar(s, cur);
      SplitJoin(s[1..], cur');
      assert cur' + s[1..] == cur + s;
    }
  }

  /** The step of `SplitJoin` at a whitespace run: the run becomes the next
      separator, between the closed piece and the rest. */
  lemma SplitJoinGap(s: string, cur: string)
    requires s != [] && IsWhitespace(s[0])
    requires |SplitFrom(TrimStart(s), "")| == |Separators(TrimStart(s))| + 1
    requires Join(SplitFrom(TrimStart(s), ""), Separators(TrimStart(s))) == "" + TrimStart(s)
    ensures |SplitFrom(s, cur)| == |Separators(s)| + 1
    ensures Join(SplitFrom(s, cur), Separators(s)) == cur + s
  {
    var rest := TrimStart(s);
    var gap := s[..|s| - |rest|];
    SplitAtGap(s, cur);
    JoinCons(cur, gap, SplitFrom(rest, ""), Separators(rest));
    assert "" + rest == rest;
    GapThenRest(s);
  }

  /** The leading whitespace run followed by the rest is the whole text. */
  lemma GapThenRest(s: string)
    ensures s[..|s| - |TrimStart(s)|] + TrimStart(s) == s
  {
    var n := |s| - |TrimStart(s)|;
    assert TrimStart(s) == s[n..];
  }

  /** At a non-blank character, `SplitFrom` extends the piece being read and
      `Separators` records nothing. */
  lemma SplitAtChar(s: string, cur: string)
    requires s != [] && !IsWhitespace(s[0])
    ensures SplitFrom(s, cur) == SplitFrom(s[1..], cur + [s[0]])
    ensures Separators(s) == Separators(s[1..])
  {
  }

  /** At a whitespace run, `SplitFrom` closes the piece being read and
      `Separators` records the run. */
  lemma SplitAtGap(s: string, cur: string)
    requires s != [] && IsWhitespace(s[0])
    ensures SplitFrom(s, cur) == [cur] + SplitFrom(TrimStart(s), "")
    ensures Separators(s) == [s[..|s| - |TrimStart(s)|]] + Separators(TrimStart(s))
  {
  }

  /** `Join` of a piece and a separator in front of the rest. */
  lemma JoinCons(p: string, gap: string, pieces: seq<string>, gaps: seq<string>)
    requires |pieces| == |gaps| + 1
    ensures |[p] + pieces| == |[gap] + gaps| + 1
    ensures Join([p] + pieces, [gap] + gaps) == p + (gap + Join(pieces, gaps))
  {
    assert ([p] + pieces)[1..] == pieces && ([gap] + gaps)[1..] == gaps;
  }

  /** When the piece being read is non-empty or the rest starts with a
      non-blank character, and the rest does not end in whitespace, no piece
      is empty. */
  lemma {:induction false} SplitPiecesNonEmpty(s: string, cur: string)
    requires cur != [] || (s != [] && !IsWhitespace(s[0]))
    requires s == [] || !IsWhitespace(s[|s| - 1])
    ensures forall k :: 0 <= k < |SplitFrom(s, cur)| ==> SplitFrom(s, cur)[k] != ""
    decreases |s|
  {
    if s == [] {
      assert SplitFrom(s, cur) == [cur];
    } else if IsWhitespace(s[0]) {
      var rest := TrimStart(s);
      assert rest != [] && rest[|rest| - 1] == s[|s| - 1];
      SplitPiecesNonEmpty(rest, "");
      assert SplitFrom(s, cur) == [cur] + SplitFrom(rest, "");
    } else {
      var cur' := cur + [s[0]];
      assert s[1..] == [] || s[1..][|s[1..]| - 1] == s[|s| - 1];
      SplitPiecesNonEmpty(s[1..], cur');
      assert SplitFrom(s, cur) == SplitFrom(s[1..], cur');
    }
  }

  /** Every character of every piece is a non-blank character taken from the
      piece being read or from the rest of the input. */
  lemma {:induction false} SplitPieceChars(s: string, cur: string)
    requires NoWhitespace(cur)
    ensures forall k, i :: 0 <= k < |SplitFrom(s, cur)| && 0 <= i < |SplitFrom(s, cur)[k]| ==>
      !IsWhitespace(SplitFrom(s, cur)[k][i]) && SplitFrom(s, cur)[k][i] in cur + s
    decreases |s|
  {
    var pieces := SplitFrom(s, cur);
    if s == [] {
    } else if IsWhitespace(s[0]) {
      var rest := TrimStart(s);
      SplitPieceChars(rest, "");
      var tail := SplitFrom(rest, "");
      assert pieces == [cur] + tail;
      forall k, i | 0 <= k < |pieces| && 0 <= i < |pieces[k]|
        ensures !IsWhitespace(pieces[k][i]) && pieces[k][i] in cur + s
      {
        if k == 0 {
          assert (cur + s)[i] == cur[i];
        } else {
          assert pieces[k] == tail[k - 1];
          var c := pieces[k][i];
          assert c in "" + rest;
          var j :| 0 <= j < |rest| && rest[j] == c;
          assert (cur + s)[|cur| + |s| - |rest| + j] == c;
        }
      }
    } else {
      var cur' := cur + [s[0]];
      SplitPieceChars(s[1..], cur');
      assert cur' + s[1..] == cur + s;
    }
  }

  lemma {:induction false} NonEmptyConcat(pieces: seq<string>)
    ensures Concat(NonEmpty(pieces)) == Concat(pieces)
  {
    if pieces != [] {
      var head, tail := pieces[0], pieces[1..];
      assert Concat(pieces) == head + Concat(tail);
      NonEmptyConcat(tail);
      if head == "" {
        assert NonEmpty(pieces) == NonEmpty(tail);
        assert head + Concat(tail) == Concat(tail);
      } else {
        assert NonEmpty(pieces) == [head] + NonEmpty(tail);
        ConcatCons(head, NonEmpty(tail));
      }
    }
  }

  /** `filter(Boolean)` distributes over concatenation: it keeps the order
      of the pieces. */
  lemma {:induction false} NonEmptyAppend(a: seq<string>, b: seq<string>)
    ensures NonEmpty(a + b) == NonEmpty(a) + NonEmpty(b)
  {
    if a != [] {
      assert (a + b)[1..] == a[1..] + b;
      NonEmptyAppend(a[1..], b);
    } else {
      assert a + b == b;
    }
  }

  /** A single piece is kept exactly when it is non-empty. */
  lemma NonEmptySingle(p: string)
    ensures NonEmpty([p]) == if p == "" then [] else [p]
  {
    assert [p][1..] == [];
  }

  /** Pieces that are all non-empty are kept as they are. */
  lemma {:induction false} NonEmptyOfNonEmpty(pieces: seq<string>)
    requires forall k :: 0 <= k < |pieces| ==> pieces[k] != ""
    ensures NonEmpty(pieces) == pieces
  {
    if pieces != [] {
      NonEmptyOfNonEmpty(pieces[1..]);
      assert pieces == [pieces[0]] + pieces[1..];
    }
  }

  /** Tokens are non-empty and hold neither whitespace nor an upper-case
      ASCII letter. */
  lemma TokensAreWords(query: string)
    ensures forall k :: 0 <= k < |Tokens(query)| ==> Tokens(query)[k] != ""
    ensures forall k, i :: 0 <= k < |Tokens(query)| && 0 <= i < |Tokens(query)[k]| ==>
      !IsWhitespace(Tokens(query)[k][i]) && !IsAsciiUpper(Tokens(query)[k][i])
  {
    var q := ToLower(Trim(query));
    var pieces := SplitFrom(q, "");
    SplitPieceChars(q, "");
    var tokens := Tokens(query);
    forall k, i | 0 <= k < |tokens| && 0 <= i < |tokens[k]|
      ensures !IsWhitespace(tokens[k][i]) && !IsAsciiUpper(tokens[k][i])
    {
      assert tokens[k] in pieces;
      var c := tokens[k][i];
      assert c in "" + q;
      var j :| 0 <= j < |q| && q[j] == c;
    }
  }

  /** The non-empty pieces of `q`, put back together, are the non-blank
      characters of `q`, in order. */
  lemma PiecesConcat(q: string)
    ensures Concat(NonEmpty(SplitFrom(q, ""))) == Squeeze(q)
  {
    SplitConcat(q, "");
    assert "" + Squeeze(q) == Squeeze(q);
    NonEmptyConcat(SplitFrom(q, ""));
  }

  /** The tokens, put back together, are the non-blank characters of the
      trimmed, lower-cased query, in order. */
  lemma TokensConcat(query: string)
    ensures Concat(Tokens(query)) == Squeeze(ToLower(Trim(query)))
  {
    PiecesConcat(ToLower(Trim(query)));
  }

  /** `q` has no non-empty pieces exactly when it is blank. */
  lemma PiecesEmptyIffBlank(q: string)
    ensures NonEmpty(SplitFrom(q, "")) == [] <==> AllWhitespace(q)
  {
    var pieces := NonEmpty(SplitFrom(q, ""));
    PiecesConcat(q);
    if pieces != [] {
      ConcatCons(pieces[0], pieces[1..]);
      assert pieces == [pieces[0]] + pieces[1..];
    }
  }

  /** There are no tokens exactly when the query is blank. */
  lemma TokensEmptyIffBlank(query: string)
    ensures Tokens(query) == [] <==> AllWhitespace(query)
  {
    var q := ToLower(Trim(query));
    PiecesEmptyIffBlank(q);
    assert AllWhitespace(q) <==> AllWhitespace(Trim(query));
  }

  /** The tokens are the maximal non-blank runs of the trimmed, lower-cased
      query: put back together with its whitespace runs between them, they
      give that text again. With `TokensAreWords` this fixes where every
      token starts and ends. */
  lemma TokensAreRuns(query: string)
    ensures Tokens(query) == [] ==> ToLower(Trim(query)) == []
    ensures Tokens(query) != [] ==>
      && |Tokens(query)| == |Separators(ToLower(Trim(query)))| + 1
      && Join(Tokens(query), Separators(ToLower(Trim(query)))) == ToLower(Trim(query))
  {
    var q := ToLower(Trim(query));
    TokensEmptyIffBlank(query);
    if q != [] {
      assert !IsWhitespace(q[0]) && !IsWhitespace(q[|q| - 1]);
      SplitPiecesNonEmpty(q, "");
      NonEmptyOfNonEmpty(SplitFrom(q, ""));
      SplitJoin(q, "");
      assert "" + q == q;
    }
  }

  /** What the route asks of the map collection: nothing for a blank query,
      otherwise black-zone open-world maps whose display name matches every
      pattern (case-insensitively), at most `limit` of them. */
  datatype GameMapQuery =
    | NoLookup
    | Lookup(pvpCategory: string, mapCategory: string, patterns: seq<string>, limit: nat)

  /** The word-start pattern of a token: `\b` and then the escaped token. */
  function WordStartPattern(token: string): (p: string)
    ensures |p| >= 2 && p[..2] == "\\b" && p[2..] == EscapeRegex(token)
  {
    "\\b" + EscapeRegex(token)
  }

  /** `/search`: a missing or non-string `q` counts as empty; a blank query
      answers `[]` before any lookup; otherwise one AND condition per token. */
  function SearchQuery(q: Option<string>): (r: GameMapQuery)
    ensures r.NoLookup? <==> q.None? || AllWhitespace(q.value)
    ensures r.Lookup? ==> r.pvpCategory == "black" && r.mapCategory == "openworld" && r.limit == 100
    ensures r.Lookup? ==> |r.patterns| == |Tokens(q.value)|
  {
    var query := match q case None => "" case Some(s) => s;
    TokensEmptyIffBlank(query);
    var tokens := Tokens(query);
    if tokens == [] then NoLookup
    else Lookup("black", "openworld", seq(|tokens|, k requires 0 <= k < |tokens| => WordStartPattern(tokens[k])), 100)
  }

  /** Each pattern is `\b` followed by a well-escaped text that unescapes to
      its token, taken in token order. */
  lemma SearchPatterns(q: string)
    ensures var r := SearchQuery(Some(q));
      r.Lookup? ==> forall k :: 0 <= k < |r.patterns| ==>
        && |r.patterns[k]| >= 2 && r.patterns[k][..2] == "\\b"
        && WellEscaped(r.patterns[k][2..])
        && Unescape(r.patterns[k][2..]) == Tokens(q)[k]
  {
    var r := SearchQuery(Some(q));
    if r.Lookup? {
      var tokens := Tokens(q);
      forall k | 0 <= k < |r.patterns|
        ensures |r.patterns[k]| >= 2 && r.patterns[k][..2] == "\\b"
        ensures WellEscaped(r.patterns[k][2..]) && Unescape(r.patterns[k][2..]) == tokens[k]
      {
        assert r.patterns[k] == WordStartPattern(tokens[k]);
        EscapeIsWellEscaped(tokens[k]);
        EscapeRoundTrip(tokens[k]);
      }
    }
  }

  /** A map document as the collection stores it (fields the route reads). */
  datatype GameMapDoc = GameMapDoc(id: string, displayName: string, imageFile: string)

  datatype GameMapResult = GameMapResult(index: string, name: string, imageUrl: string, mapPageUrl: string)

  function MapPageUrl(index: string): (url: string)
    ensures "https://albiononline2d.com/en/map/" <= url && url[|"https://albiononline2d.com/en/map/"|..] == index
  {
    "https://albiononline2d.com/en/map/" + index
  }

  /** One found document as the route answers it. */
  function ToResult(doc: GameMapDoc): (r: GameMapResult)
    ensures r.index == doc.id && r.name == doc.displayName
    ensures r.imageUrl == ToImageUrl(doc.imageFile) && r.mapPageUrl == MapPageUrl(doc.id)
    ensures AfmCdnBase + "/" <= r.imageUrl && !EndsWith(r.imageUrl, ".png")
  {
    ImageUrlNeverPng(doc.imageFile);
    GameMapResult(doc.id, doc.displayName, ToImageUrl(doc.imageFile), MapPageUrl(doc.id))
  }
}
