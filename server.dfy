/** The two pure helpers of the server: the YouTube video-id extractor used
    by `/api/connect` and the music-file listing of `/api/music`. */
module Server {
  import opened Common
  import opened JsText

  // ----- extractVideoId -----------------------------------------------------
  //
  // The pattern is
  //   ^.*((youtu.be\/)|(v\/)|(\/u\/\w\/)|(embed\/)|(watch\?))\??v?=?([^#&?]*).*
  // It has no `u` flag, so it reads the URL one UTF-16 code unit at a time:
  // `.` and `[^#&?]` take one code unit, and `match[7].length` counts code
  // units. The leading greedy `.*` backtracks from the right, so group 1
  // matches at the rightmost position it can; `.` matches no line
  // terminator, so that position lies before the first one. The five
  // alternatives start with different code units, so at most one matches at
  // a position. After group 1 the rest of the pattern always matches, and its
  // greedy parts take: one `?` if present, then one `v`, then one `=`, then
  // the longest run without `#`, `&` or `?` (group 7).

  /** The code units `.` does not match: line feed, carriage return, line
      separator and paragraph separator. */
  predicate IsLineTerminator(c: CodeUnit)
  {
    c == 0x0A || c == 0x0D || c == 0x2028 || c == 0x2029
  }

  /** `\w`: `a`-`z`, `A`-`Z`, `0`-`9` and `_`. */
  predicate IsWordChar(c: CodeUnit)
  {
    (0x61 <= c <= 0x7A) || (0x41 <= c <= 0x5A) || (0x30 <= c <= 0x39) || c == 0x5F
  }

  /** The code units group 7 stops at: `#`, `&` and `?`. */
  predicate IsSeparator(c: CodeUnit)
  {
    c == 0x23 || c == 0x26 || c == 0x3F
  }

  /** The first code units of the five alternatives of group 1: `y`, `v`,
      `/`, `e` and `w`. */
  predicate IsMarkerLead(c: CodeUnit)
  {
    c == 0x79 || c == 0x76 || c == 0x2F || c == 0x65 || c == 0x77
  }

  /** The text `lit` occurs in `url` at position `p`. */
  predicate LiteralAt(url: JsString, p: nat, lit: string)
  {
    p + |lit| <= |url| && url[p..p + |lit|] == BmpUnits(lit)
  }

  /** Each literal of group 1 begins with its own lead code unit. */
  lemma LiteralLeads(url: JsString, p: nat)
    ensures LiteralAt(url, p, "youtu") ==> url[p] == 0x79
    ensures LiteralAt(url, p, "v/") ==> url[p] == 0x76
    ensures LiteralAt(url, p, "/u/") ==> url[p] == 0x2F
    ensures LiteralAt(url, p, "embed/") ==> url[p] == 0x65
    ensures LiteralAt(url, p, "watch?") ==> url[p] == 0x77
  {
    if LiteralAt(url, p, "youtu") { assert url[p] == url[p..p + 5][0]; }
    if LiteralAt(url, p, "v/") { assert url[p] == url[p..p + 2][0]; }
    if LiteralAt(url, p, "/u/") { assert url[p] == url[p..p + 3][0]; }
    if LiteralAt(url, p, "embed/") { assert url[p] == url[p..p + 6][0]; }
    if LiteralAt(url, p, "watch?") { assert url[p] == url[p..p + 6][0]; }
  }

  /** The length of the text group 1 matches at `p`, or 0 when none of its
      alternatives does. The alternatives begin with different code units,
      so the code unit at `p` selects the only one that can match. */
  function MarkerLength(url: JsString, p: nat): (n: nat)
    ensures n == 0 || n == 2 || n == 5 || n == 6 || n == 9
    ensures n > 0 ==> p + n <= |url| && IsMarkerLead(url[p])
    ensures n == 9 ==> url[p] == 0x79
    ensures n == 2 ==> url[p] == 0x76
    ensures n == 5 ==> url[p] == 0x2F
    ensures n == 6 ==> url[p] == 0x65 || url[p] == 0x77
  {
    if p >= |url| then 0
    else if url[p] == 0x79 then
      // youtu.be\/ : the `.` is any one code unit but a line terminator
      if LiteralAt(url, p, "youtu") && p + 9 <= |url| && !IsLineTerminator(url[p + 5])
         && LiteralAt(url, p + 6, "be/") then 9 else 0
    else if url[p] == 0x76 then
      if LiteralAt(url, p, "v/") then 2 else 0
    else if url[p] == 0x2F then
      // \/u\/\w\/
      if LiteralAt(url, p, "/u/") && p + 5 <= |url| && IsWordChar(url[p + 3]) && url[p + 4] == 0x2F
      then 5 else 0
    else if url[p] == 0x65 then
      if LiteralAt(url, p, "embed/") then 6 else 0
    else if url[p] == 0x77 then
      if LiteralAt(url, p, "watch?") then 6 else 0
    else 0
  }

  /** What group 1 matches at `p`, alternative by alternative: `youtu.be/`
      (with any code unit but a line terminator for the `.`), `v/`,
      `/u/` followed by a word character and `/`, `embed/` or `watch?`. */
  lemma MarkerAlternatives(url: JsString, p: nat)
    ensures MarkerLength(url, p) == 9 <==>
              LiteralAt(url, p, "youtu") && p + 9 <= |url| && !IsLineTerminator(url[p + 5])
              && LiteralAt(url, p + 6, "be/")
    ensures MarkerLength(url, p) == 2 <==> LiteralAt(url, p, "v/")
    ensures MarkerLength(url, p) == 5 <==>
              LiteralAt(url, p, "/u/") && p + 5 <= |url| && IsWordChar(url[p + 3]) && url[p + 4] == 0x2F
    ensures MarkerLength(url, p) == 6 <==> LiteralAt(url, p, "embed/") || LiteralAt(url, p, "watch?")
  {
    LiteralLeads(url, p);
  }

  /** `^.*` can consume `url[..p]`. */
  predicate Reachable(url: JsString, p: nat)
  {
    p <= |url| && forall k :: 0 <= k < p ==> !IsLineTerminator(url[k])
  }

  /** The end of the first line: how far `^.*` can reach. */
  function LineEnd(url: JsString, from: nat): (r: nat)
    requires Reachable(url, from)
    ensures from <= r && Reachable(url, r)
    ensures r == |url| || IsLineTerminator(url[r])
    decreases |url| - from
  {
    if from == |url| || IsLineTerminator(url[from]) then from else LineEnd(url, from + 1)
  }

  /** The rightmost position at or below `p` where group 1 matches. */
  function LastMarker(url: JsString, p: nat): (r: Option<nat>)
    ensures r.Some? ==> r.value <= p && MarkerLength(url, r.value) > 0
    ensures r.Some? ==> forall q :: r.value < q <= p ==> MarkerLength(url, q) == 0
    ensures r.None? ==> forall q :: 0 <= q <= p ==> MarkerLength(url, q) == 0
    decreases p
  {
    if MarkerLength(url, p) > 0 then Some(p)
    else if p == 0 then None
    else LastMarker(url, p - 1)
  }

  /** An optional single code unit `c` (`\??`, `v?`, `=?`), taken
      greedily: it is skipped exactly when it is there. */
  function SkipOptional(url: JsString, i: nat, c: CodeUnit): (j: nat)
    requires i <= |url|
    ensures i <= j <= i + 1 && j <= |url|
    ensures j == i + 1 <==> i < |url| && url[i] == c
  {
    if i < |url| && url[i] == c then i + 1 else i
  }

  /** The end of the longest run without `#`, `&` or `?` starting at `i`. */
  function RunEnd(url: JsString, i: nat): (j: nat)
    requires i <= |url|
    ensures i <= j <= |url|
    ensures forall k :: i <= k < j ==> !IsSeparator(url[k])
    ensures j == |url| || IsSeparator(url[j])
    decreases |url| - i
  {
    if i == |url| || IsSeparator(url[i]) then i else RunEnd(url, i + 1)
  }

  /** The texts `\??v?=?` can match: `?`, `v` and `=`, each at most once
      and in that order. */
  const OptionalPrefixes: set<JsString> :=
    {[], [0x3F], [0x76], [0x3D], [0x3F, 0x76], [0x3F, 0x3D], [0x76, 0x3D], [0x3F, 0x76, 0x3D]}

  /** Where group 7 starts when group 1 matched at `p`: after the marker and
      a text that `\??v?=?` matches. */
  function GroupStart(url: JsString, p: nat): (s: nat)
    requires p <= |url|
    ensures p + MarkerLength(url, p) <= s <= |url|
    ensures url[p + MarkerLength(url, p)..s] in OptionalPrefixes
    ensures s < |url| ==> url[p + MarkerLength(url, p)..s + 1] !in OptionalPrefixes
  {
    var afterMarker := p + MarkerLength(url, p);
    var afterQuery := SkipOptional(url, afterMarker, 0x3F);  // `?`
    var afterV := SkipOptional(url, afterQuery, 0x76);       // `v`
    var s := SkipOptional(url, afterV, 0x3D);                // `=`
    OptionalGap(url, afterMarker, afterQuery, afterV, s);
    GreedyGapMaximal(url, afterMarker, afterQuery, afterV, s);
    s
  }

  /** Three greedy optional steps over `?`, `v` and `=` leave a text
      `\??v?=?` matches. */
  lemma OptionalGap(url: JsString, a: nat, q: nat, v: nat, s: nat)
    requires a <= q <= a + 1 && q <= v <= q + 1 && v <= s <= v + 1 && s <= |url|
    requires q == a + 1 ==> url[a] == 0x3F
    requires v == q + 1 ==> url[q] == 0x76
    requires s == v + 1 ==> url[v] == 0x3D
    ensures url[a..s] in OptionalPrefixes
  {
    var gap := url[a..s];
    if q == a + 1 && v == q + 1 && s == v + 1 {
      assert gap[0] == url[a] && gap[1] == url[q] && gap[2] == url[v];
      assert gap == [0x3F, 0x76, 0x3D];
    } else if q == a + 1 && v == q + 1 {
      assert |gap| == 2 && gap[0] == url[a] && gap[1] == url[q];
      assert gap == [0x3F, 0x76];
    } else if q == a + 1 && s == v + 1 {
      assert |gap| == 2 && gap[0] == url[a] && gap[1] == url[v];
      assert gap == [0x3F, 0x3D];
    } else if v == q + 1 && s == v + 1 {
      assert |gap| == 2 && gap[0] == url[q] && gap[1] == url[v];
      assert gap == [0x76, 0x3D];
    } else if q == a + 1 {
      assert |gap| == 1 && gap[0] == url[a];
      assert gap == [0x3F];
    } else if v == q + 1 {
      assert |gap| == 1 && gap[0] == url[q];
      assert gap == [0x76];
    } else if s == v + 1 {
      assert |gap| == 1 && gap[0] == url[v];
      assert gap == [0x3D];
    } else {
      assert gap == [];
    }
  }

  /** Three greedy steps, each taking its code unit exactly when it is
      next, leave a gap that the next code unit cannot extend. */
  lemma GreedyGapMaximal(url: JsString, a: nat, q: nat, v: nat, s: nat)
    requires a <= q <= a + 1 && q <= v <= q + 1 && v <= s <= v + 1 && s <= |url|
    requires q == a + 1 <==> a < |url| && url[a] == 0x3F
    requires v == q + 1 <==> q < |url| && url[q] == 0x76
    requires s == v + 1 <==> v < |url| && url[v] == 0x3D
    ensures s < |url| ==> url[a..s + 1] !in OptionalPrefixes
  {
    if s < |url| {
      var g := url[a..s + 1];
      var c := url[s];
      assert g[|g| - 1] == c;
      if q == a + 1 && v == q + 1 && s == v + 1 {
        assert |g| == 4;
      } else if q == a + 1 && v == q + 1 {
        assert |g| == 3 && g[0] == url[a] && g[1] == url[q] && c != 0x3D;
      } else if q == a + 1 && s == v + 1 {
        assert |g| == 3 && g[0] == url[a] && g[1] == url[v];
      } else if v == q + 1 && s == v + 1 {
        assert |g| == 3 && g[0] == url[q] && g[1] == url[v];
      } else if q == a + 1 {
        assert |g| == 2 && g[0] == url[a] && c != 0x76 && c != 0x3D;
      } else if v == q + 1 {
        assert |g| == 2 && g[0] == url[q] && c != 0x3D;
      } else if s == v + 1 {
        assert |g| == 2 && g[0] == url[v];
      } else {
        assert |g| == 1 && c != 0x3F && c != 0x76 && c != 0x3D;
      }
    }
  }

  /** Every prefix of a text `\??v?=?` matches is one too. */
  lemma OptionalPrefixesClosed(g: JsString, k: nat)
    requires g in OptionalPrefixes && k <= |g|
    ensures g[..k] in OptionalPrefixes
  {
    if k == 0 {
      assert g[..k] == [];
    } else if k == |g| {
      assert g[..k] == g;
    } else if k == 1 {
      assert g[..k] == [g[0]];
    } else {
      assert g == [0x3F, 0x76, 0x3D] && k == 2;
      assert g[..k] == [0x3F, 0x76];
    }
  }

  /** The gap `\??v?=?` takes greedily is the only one that the pattern
      matches and that the next code unit cannot extend. */
  lemma GreedyGapUnique(url: JsString, a: nat, s1: nat, s2: nat)
    requires a <= s1 <= |url| && a <= s2 <= |url|
    requires url[a..s1] in OptionalPrefixes && url[a..s2] in OptionalPrefixes
    requires s1 < |url| ==> url[a..s1 + 1] !in OptionalPrefixes
    requires s2 < |url| ==> url[a..s2 + 1] !in OptionalPrefixes
    ensures s1 == s2
  {
    if s1 < s2 {
      assert url[a..s2][..s1 + 1 - a] == url[a..s1 + 1];
      OptionalPrefixesClosed(url[a..s2], s1 + 1 - a);
    } else if s2 < s1 {
      assert url[a..s1][..s2 + 1 - a] == url[a..s2 + 1];
      OptionalPrefixesClosed(url[a..s1], s2 + 1 - a);
    }
  }

  /** `extractVideoId`: group 7 when the pattern matches and group 7 is
      exactly eleven code units long, `null` otherwise. */
  function ExtractVideoId(url: JsString): (r: Option<JsString>)
    ensures r.Some? ==> |r.value| == 11
    ensures r.Some? ==> forall k :: 0 <= k < 11 ==> !IsSeparator(r.value[k])
    ensures r.Some? ==> exists i :: VideoIdAt(url, i, r.value)
  {
    match LastMarker(url, LineEnd(url, 0))
    case None => None
    case Some(p) =>
      var s := GroupStart(url, p);
      var e := RunEnd(url, s);
      if e - s == 11 then
        assert VideoIdAt(url, s, url[s..e]);
        Some(url[s..e])
      else None
  }

  /** `v` occurs in `url` at `i` and is followed by a separator or by the
      end of the URL. */
  predicate VideoIdAt(url: JsString, i: nat, v: JsString)
  {
    i + |v| <= |url| && url[i..i + |v|] == v && (i + |v| == |url| || IsSeparator(url[i + |v|]))
  }

  /** The regular expression's match, stated declaratively: group 1 matches
      at `p`, which `^.*` can reach, and at no reachable position further
      right; after the marker, `\??v?=?` takes the longest text it can
      match; group 7 is `url[s..e]`, the maximal separator-free run that
      follows. */
  ghost predicate RegexMatch(url: JsString, p: nat, s: nat, e: nat)
  {
    && Reachable(url, p)
    && MarkerLength(url, p) > 0
    && (forall q :: p < q && Reachable(url, q) ==> MarkerLength(url, q) == 0)
    && p + MarkerLength(url, p) <= s <= e <= |url|
    && url[p + MarkerLength(url, p)..s] in OptionalPrefixes
    && (s < |url| ==> url[p + MarkerLength(url, p)..s + 1] !in OptionalPrefixes)
    && (forall k :: s <= k < e ==> !IsSeparator(url[k]))
    && (e == |url| || IsSeparator(url[e]))
  }

  /** A reachable position lies at or before the end of the first line. */
  lemma ReachableWithinLine(url: JsString, q: nat)
    requires Reachable(url, q)
    ensures q <= LineEnd(url, 0)
  {
  }

  /** A separator-free run that ends at a separator or at the end is the
      maximal one. */
  lemma RunEndUnique(url: JsString, s: nat, e: nat)
    requires s <= e <= |url|
    requires forall k :: s <= k < e ==> !IsSeparator(url[k])
    requires e == |url| || IsSeparator(url[e])
    ensures RunEnd(url, s) == e
  {
  }

  /** `ExtractVideoId` agrees with the regular expression: whenever the
      pattern matches, the result is group 7 if it is eleven code units long
      and `null` otherwise. */
  lemma ExtractVideoIdFollowsMatch(url: JsString, p: nat, s: nat, e: nat)
    requires RegexMatch(url, p, s, e)
    ensures ExtractVideoId(url) == if e - s == 11 then Some(url[s..e]) else None
  {
    MatchIsLastMarker(url, p, s, e);
    GreedyGapUnique(url, p + MarkerLength(url, p), s, GroupStart(url, p));
    RunEndUnique(url, s, e);
  }

  /** The matched marker is the one the search finds. */
  lemma MatchIsLastMarker(url: JsString, p: nat, s: nat, e: nat)
    requires RegexMatch(url, p, s, e)
    ensures LastMarker(url, LineEnd(url, 0)) == Some(p)
  {
    ReachableWithinLine(url, p);
  }

  /** When the pattern does not match, the result is `null`. */
  lemma ExtractVideoIdWithoutMatch(url: JsString)
    requires forall p: nat :: Reachable(url, p) ==> MarkerLength(url, p) == 0
    ensures ExtractVideoId(url) == None
  {
    var l := LineEnd(url, 0);
    var found := LastMarker(url, l);
    if found.Some? {
      assert Reachable(url, found.value);
    }
  }

  /** Every URL either matches the pattern or has no reachable marker, so
      the two lemmas above fix `ExtractVideoId` on every input. */
  lemma MatchOrNoMarker(url: JsString)
    ensures || (exists p, s, e :: RegexMatch(url, p, s, e))
            || (forall p: nat :: Reachable(url, p) ==> MarkerLength(url, p) == 0)
  {
    var l := LineEnd(url, 0);
    match LastMarker(url, l)
    case None =>
      forall p: nat | Reachable(url, p)
        ensures MarkerLength(url, p) == 0
      {
        ReachableWithinLine(url, p);
      }
    case Some(p) =>
      forall q | p < q && Reachable(url, q)
        ensures MarkerLength(url, q) == 0
      {
        ReachableWithinLine(url, q);
      }
      var s := GroupStart(url, p);
      assert RegexMatch(url, p, s, RunEnd(url, s));
  }

  // ----- /api/music ---------------------------------------------------------

  /** Prefix of the web path under which the music files are served. */
  const MusicPath := "/public/music/"

  /** The outcome of `fs.readdir` on the music directory. */
  datatype DirRead = Files(names: seq<string>) | ReadError(message: string)

  /** `s.endsWith(suffix)`. */
  predicate EndsWith(s: string, suffix: string)
  {
    |suffix| <= |s| && s[|s| - |suffix|..] == suffix
  }

  /** The filter `f.endsWith('.mp3') || f.endsWith('.wav')`. */
  predicate IsAudioFile(name: string)
  {
    EndsWith(name, ".mp3") || EndsWith(name, ".wav")
  }

  /** `endsWith` holds exactly when the text is something followed by the
      suffix. */
  lemma EndsWithIffSplit(s: string, suffix: string)
    ensures EndsWith(s, suffix) <==> exists stem :: stem + suffix == s
  {
    if EndsWith(s, suffix) {
      var stem := s[..|s| - |suffix|];
      assert stem + suffix == s;
    }
    if stem :| stem + suffix == s {
      assert s[|stem|..] == suffix;
    }
  }

  /** An audio file is a name ending in `.mp3` or `.wav`, whatever precedes
      the extension (even nothing or other dots). */
  lemma IsAudioFileIffExtension(name: string)
    ensures IsAudioFile(name) <==>
              exists stem :: stem + ".mp3" == name || stem + ".wav" == name
  {
    EndsWithIffSplit(name, ".mp3");
    EndsWithIffSplit(name, ".wav");
  }

  /** `files.filter(IsAudioFile)`. */
  function AudioFiles(files: seq<string>): (r: seq<string>)
    ensures |r| <= |files|
    ensures forall f :: f in r <==> f in files && IsAudioFile(f)
    decreases |files|
  {
    if files == [] then []
    else (if IsAudioFile(files[0]) then [files[0]] else []) + AudioFiles(files[1..])
  }

  /** Filtering keeps relative order: it works piece by piece. */
  lemma {:induction false} AudioFilesAppend(a: seq<string>, b: seq<string>)
    ensures AudioFiles(a + b) == AudioFiles(a) + AudioFiles(b)
    decreases |a|
  {
    if a != [] {
      assert (a + b)[0] == a[0];
      assert (a + b)[1..] == a[1..] + b;
      AudioFilesAppend(a[1..], b);
    } else {
      assert a + b == b;
    }
  }

  /** `names.map(f => `/public/music/${f}`)`. */
  function WebPaths(names: seq<string>): (r: seq<string>)
    ensures |r| == |names|
    ensures forall i :: 0 <= i < |r| ==> r[i] == MusicPath + names[i]
  {
    seq(|names|, i requires 0 <= i < |names| => MusicPath + names[i])
  }

  /** The response of `/api/music`: the empty list when the directory cannot
      be read, otherwise the audio file names in directory order, each as
      `/public/music/<name>`. */
  function MusicListing(read: DirRead): (r: seq<string>)
    ensures read.ReadError? ==> r == []
    ensures read.Files? ==> |r| <= |read.names|
    ensures forall i :: 0 <= i < |r| ==>
              && read.Files?
              && MusicPath <= r[i]
              && var name := r[i][|MusicPath|..];
                 name in read.names && IsAudioFile(name)
    ensures read.Files? ==>
              forall f :: f in read.names && IsAudioFile(f) ==> MusicPath + f in r
  {
    match read
    case ReadError(_) => []
    case Files(names) =>
      var audio := AudioFiles(names);
      var r := WebPaths(audio);
      assert forall i :: 0 <= i < |r| ==> r[i][|MusicPath|..] == audio[i];
      assert forall f :: f in audio ==> MusicPath + f in r by {
        forall f | f in audio ensures MusicPath + f in r {
          var i :| 0 <= i < |audio| && audio[i] == f;
          assert r[i] == MusicPath + f;
        }
      }
      r
  }

  /** The listing keeps directory order: listing two halves of a directory
      and concatenating gives the listing of the whole. */
  lemma MusicListingAppend(a: seq<string>, b: seq<string>)
    ensures MusicListing(Files(a + b)) == MusicListing(Files(a)) + MusicListing(Files(b))
  {
    AudioFilesAppend(a, b);
    var x, y := AudioFiles(a), AudioFiles(b);
    assert WebPaths(x + y) == WebPaths(x) + WebPaths(y);
  }
}
