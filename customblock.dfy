/** The two URL rules of the media block: which kind of block a pasted URL
    becomes, and how the YouTube video id is cut out of a URL. */
module CustomBlock {
  import opened Schema
  import opened JsStrings

  datatype MediaType = Image | Video | YouTube

  // ---------------------------------------------------------------------------
  // Classification of a URL entered in the slash menu.
  // ---------------------------------------------------------------------------

  /** `p` occurs somewhere in `s`. */
  ghost predicate Contains(s: string, p: string) {
    exists i: nat :: OccursAt(s, p, i)
  }

  /** The alternatives of the group `(jpeg|jpg|gif|png)`. */
  predicate IsImageExtension(ext: string) {
    ext == "jpeg" || ext == "jpg" || ext == "gif" || ext == "png"
  }

  /** `/\.(jpeg|jpg|gif|png)$/` matches: a dot at some position followed by one
      of the extensions and then the end of the string. */
  ghost predicate MatchesImagePattern(url: string) {
    exists i: nat :: i < |url| && url[i] == '.' && IsImageExtension(url[i + 1..])
  }

  /** A dot at `i` followed by `ext` up to the end is a suffix `"." + ext`. */
  lemma DotExtensionIsSuffix(url: string, i: nat, ext: string)
    requires i < |url| && url[i] == '.' && url[i + 1..] == ext
    ensures EndsWith(url, "." + ext)
  {
    assert url[i..] == [url[i]] + url[i + 1..];
  }

  lemma SuffixIsDotExtension(url: string, ext: string)
    requires EndsWith(url, "." + ext)
    ensures var i := |url| - |ext| - 1; 0 <= i < |url| && url[i] == '.' && url[i + 1..] == ext
  {
    var i := |url| - |ext| - 1;
    assert url[i..] == "." + ext;
    assert url[i..][0] == url[i];
    assert url[i + 1..] == url[i..][1..];
  }

  lemma SuffixMatchesImagePattern(url: string, ext: string)
    requires IsImageExtension(ext) && EndsWith(url, "." + ext)
    ensures MatchesImagePattern(url)
  {
    SuffixIsDotExtension(url, ext);
    var i: nat := |url| - |ext| - 1;
    assert i < |url| && url[i] == '.' && IsImageExtension(url[i + 1..]);
  }

  lemma ImagePatternMeansSuffix(url: string)
    requires MatchesImagePattern(url)
    ensures EndsWith(url, ".jpeg") || EndsWith(url, ".jpg") || EndsWith(url, ".gif") || EndsWith(url, ".png")
  {
    var i: nat :| i < |url| && url[i] == '.' && IsImageExtension(url[i + 1..]);
    DotAtMeansSuffix(url, i);
  }

  lemma DotAtMeansSuffix(url: string, i: nat)
    requires i < |url| && url[i] == '.' && IsImageExtension(url[i + 1..])
    ensures EndsWith(url, ".jpeg") || EndsWith(url, ".jpg") || EndsWith(url, ".gif") || EndsWith(url, ".png")
  {
    var ext := url[i + 1..];
    if ext == "jpeg" {
      DotExtensionIsSuffix(url, i, "jpeg");
    } else if ext == "jpg" {
      DotExtensionIsSuffix(url, i, "jpg");
    } else if ext == "gif" {
      DotExtensionIsSuffix(url, i, "gif");
    } else {
      DotExtensionIsSuffix(url, i, "png");
    }
  }

  lemma ImagePatternIsSuffix(url: string)
    ensures MatchesImagePattern(url) <==>
      EndsWith(url, ".jpeg") || EndsWith(url, ".jpg") || EndsWith(url, ".gif") || EndsWith(url, ".png")
  {
    if EndsWith(url, ".jpeg") {
      SuffixMatchesImagePattern(url, "jpeg");
    } else if EndsWith(url, ".jpg") {
      SuffixMatchesImagePattern(url, "jpg");
    } else if EndsWith(url, ".gif") {
      SuffixMatchesImagePattern(url, "gif");
    } else if EndsWith(url, ".png") {
      SuffixMatchesImagePattern(url, "png");
    }
    if MatchesImagePattern(url) {
      ImagePatternMeansSuffix(url);
    }
  }

  /** The image test, written as a test of the four suffixes. */
  function HasImageExtension(url: string): (b: bool)
    ensures b <==> MatchesImagePattern(url)
  {
    var b := EndsWith(url, ".jpeg") || EndsWith(url, ".jpg") || EndsWith(url, ".gif") || EndsWith(url, ".png");
    ImagePatternIsSuffix(url);
    b
  }

  /** The block type `insertMedia` picks for the URL the prompt returned; an
      empty answer inserts nothing. A URL mentioning YouTube is a YouTube block
      whatever it ends with; otherwise an image extension at the very end makes
      an image, and everything else is a video. */
  function MediaTypeFor(url: string): (r: Option<MediaType>)
    ensures r.None? <==> url == []
    ensures r == Some(YouTube) <==> url != [] && (Contains(url, "youtube.com") || Contains(url, "youtu.be"))
    ensures r == Some(Image) <==>
      url != [] && !Contains(url, "youtube.com") && !Contains(url, "youtu.be") && MatchesImagePattern(url)
    ensures r == Some(Video) <==>
      url != [] && !Contains(url, "youtube.com") && !Contains(url, "youtu.be") && !MatchesImagePattern(url)
  {
    if url == [] then None
    else
      var isYouTube := Includes(url, "youtube.com") || Includes(url, "youtu.be");
      Some(if isYouTube then YouTube else if HasImageExtension(url) then Image else Video)
  }

  // ---------------------------------------------------------------------------
  // getYouTubeId: /^.*(youtu.be\/|v\/|u\/\w\/|embed\/|watch\?v=|&v=)([^#&?]*).*/
  // ---------------------------------------------------------------------------

  /** `\w`: ASCII letters, digits and underscore. */
  predicate IsWordChar(c: char) {
    ('a' <= c <= 'z') || ('A' <= c <= 'Z') || ('0' <= c <= '9') || c == '_'
  }

  /** The characters `[^#&?]` excludes. */
  predicate IsCaptureStop(c: char) {
    c == '#' || c == '&' || c == '?'
  }

  /** One position of an alternative of the first group: a literal character,
      the unescaped `.` (any character but a line terminator) or `\w`. */
  datatype Atom = Char(c: char) | AnyButLineTerminator | WordChar

  predicate AtomMatches(a: Atom, c: char) {
    match a
    case Char(x) => c == x
    case AnyButLineTerminator => !IsLineTerminator(c)
    case WordChar => IsWordChar(c)
  }

  /** The atoms that match exactly the characters of `s`. */
  function Literal(s: string): (r: seq<Atom>)
    ensures |r| == |s| && forall i :: 0 <= i < |s| ==> r[i] == Char(s[i])
  {
    if s == [] then [] else [Char(s[0])] + Literal(s[1..])
  }

  /** The alternatives of `(youtu.be\/|v\/|u\/\w\/|embed\/|watch\?v=|&v=)`, in
      the order the regex engine tries them. */
  const Markers: seq<seq<Atom>> := [
    Literal("youtu") + [AnyButLineTerminator] + Literal("be/"),
    Literal("v/"),
    Literal("u/") + [WordChar, Char('/')],
    Literal("embed/"),
    Literal("watch?v="),
    Literal("&v=")
  ]

  /** The atoms of `p` match the characters of `url` from `k` on. */
  predicate MatchesAt(url: string, k: nat, p: seq<Atom>)
    ensures MatchesAt(url, k, p) && p != [] ==> k + |p| <= |url|
    decreases |p|
  {
    p == [] || (k < |url| && AtomMatches(p[0], url[k]) && MatchesAt(url, k + 1, p[1..]))
  }

  /** A literal matches exactly where its text occurs. */
  lemma {:induction false} LiteralMatchesAt(url: string, k: nat, s: string)
    requires k <= |url|
    ensures MatchesAt(url, k, Literal(s)) <==> OccursAt(url, s, k)
    decreases |s|
  {
    if s != [] {
      assert Literal(s)[1..] == Literal(s[1..]);
      if k < |url| {
        LiteralMatchesAt(url, k + 1, s[1..]);
        if k + |s| <= |url| {
          assert url[k..k + |s|] == [url[k]] + url[k + 1..k + |s|];
          assert s == [s[0]] + s[1..];
        }
      }
    }
  }

  /** `p + q` matches at `k` when `p` does and `q` matches right after it. */
  lemma {:induction false} MatchesAtAppend(url: string, k: nat, p: seq<Atom>, q: seq<Atom>)
    ensures MatchesAt(url, k, p + q) <==> MatchesAt(url, k, p) && MatchesAt(url, k + |p|, q)
    decreases |p|
  {
    if p == [] {
      assert p + q == q;
    } else {
      assert (p + q)[0] == p[0] && (p + q)[1..] == p[1..] + q;
      MatchesAtAppend(url, k + 1, p[1..], q);
    }
  }

  /** The length of the first of `alts` that matches at `k`, or 0. */
  function FirstAlternative(url: string, k: nat, alts: seq<seq<Atom>>): (n: nat)
    ensures n == 0 || k + n <= |url|
    decreases |alts|
  {
    if alts == [] then 0
    else if MatchesAt(url, k, alts[0]) then |alts[0]|
    else FirstAlternative(url, k, alts[1..])
  }

  /** What the group `(alts)` matches at `k`: the length of the first
      alternative that matches there, or 0 when none does. */
  function GroupAt(url: string, k: nat, alts: seq<seq<Atom>>): (n: nat)
    ensures n == 0 || k + n <= |url|
  {
    FirstAlternative(url, k, alts)
  }

  /** Alternation is ordered: the first alternative that matches is taken,
      even when a later one would match a longer text. */
  lemma {:induction false} FirstAlternativeWins(url: string, k: nat, alts: seq<seq<Atom>>, i: nat)
    requires i < |alts| && MatchesAt(url, k, alts[i])
    requires forall h :: 0 <= h < i ==> !MatchesAt(url, k, alts[h])
    ensures GroupAt(url, k, alts) == |alts[i]|
    decreases i
  {
    if i > 0 {
      assert !MatchesAt(url, k, alts[0]);
      forall h | 0 <= h < i - 1 ensures !MatchesAt(url, k, alts[1..][h]) {
        assert alts[1..][h] == alts[h + 1];
      }
      FirstAlternativeWins(url, k, alts[1..], i - 1);
    }
  }

  /** The group matches nothing at `k` when no alternative matches there. */
  lemma {:induction false} NoAlternativeMatches(url: string, k: nat, alts: seq<seq<Atom>>)
    requires forall h :: 0 <= h < |alts| ==> !MatchesAt(url, k, alts[h])
    ensures GroupAt(url, k, alts) == 0
    decreases |alts|
  {
    if alts != [] {
      forall h | 0 <= h < |alts| - 1 ensures !MatchesAt(url, k, alts[1..][h]) {
        assert alts[1..][h] == alts[h + 1];
      }
      NoAlternativeMatches(url, k, alts[1..]);
    }
  }

  /** The first alternative `youtu.be\/`: its dot takes any character but a
      line terminator, so `youtu` then such a character then `be/` is a
      9-character marker. */
  lemma YoutuBeMarker(url: string, k: nat)
    requires OccursAt(url, "youtu", k) && k + 5 < |url| && !IsLineTerminator(url[k + 5]) && OccursAt(url, "be/", k + 6)
    ensures GroupAt(url, k, Markers) == 9
  {
    var p := Literal("youtu");
    var q := Literal("be/");
    LiteralMatchesAt(url, k, "youtu");
    LiteralMatchesAt(url, k + 6, "be/");
    assert MatchesAt(url, k + 5, [AnyButLineTerminator] + q);
    MatchesAtAppend(url, k, p, [AnyButLineTerminator] + q);
    assert p + [AnyButLineTerminator] + q == p + ([AnyButLineTerminator] + q);
    FirstAlternativeWins(url, k, Markers, 0);
  }

  /** The index of the first line terminator at or after `i`, or `|url|`. */
  function LineEndFrom(url: string, i: nat): (e: nat)
    requires i <= |url|
    ensures i <= e <= |url|
    ensures forall j :: i <= j < e ==> !IsLineTerminator(url[j])
    ensures e < |url| ==> IsLineTerminator(url[e])
    decreases |url| - i
  {
    if i == |url| || IsLineTerminator(url[i]) then i else LineEndFrom(url, i + 1)
  }

  /** How far the leading `^.*` can reach: `.` stops at a line terminator. */
  function FirstLineEnd(url: string): (e: nat)
    ensures e <= |url|
    ensures forall j :: 0 <= j < e ==> !IsLineTerminator(url[j])
    ensures e < |url| ==> IsLineTerminator(url[e])
  {
    LineEndFrom(url, 0)
  }

  /** The greatest start at or before `k` where one of `alts` matches. */
  function LastMarkerUpTo(url: string, k: nat, alts: seq<seq<Atom>>): (r: Option<nat>)
    requires k <= |url|
    ensures r.Some? ==> r.value <= k && GroupAt(url, r.value, alts) > 0
    ensures r.Some? ==> forall j :: r.value < j <= k ==> GroupAt(url, j, alts) == 0
    ensures r.None? ==> forall j :: 0 <= j <= k ==> GroupAt(url, j, alts) == 0
    decreases k
  {
    if GroupAt(url, k, alts) > 0 then Some(k)
    else if k == 0 then None
    else LastMarkerUpTo(url, k - 1, alts)
  }

  /** Where the greedy `[^#&?]*` starting at `j` stops. */
  function RunEnd(url: string, j: nat): (e: nat)
    requires j <= |url|
    ensures j <= e <= |url|
    ensures forall i :: j <= i < e ==> !IsCaptureStop(url[i])
    ensures e < |url| ==> IsCaptureStop(url[e])
    decreases |url| - j
  {
    if j == |url| || IsCaptureStop(url[j]) then j else RunEnd(url, j + 1)
  }

  /** The match the regex engine reports: `markerStart` is where the first
      group starts, `videoId` is the second group. */
  datatype YouTubeMatch = YouTubeMatch(markerStart: nat, markerEnd: nat, videoId: string)

  /** `url.match` with the pattern `^.*(alts)([^#&?]*).*`. The greedy `^.*` backtracks
      from the longest prefix without a line terminator, so the first group is
      the alternative with the greatest start within the first line; the second
      group then takes every following character up to the first `#`, `&` or
      `?`, and the trailing `.*` always matches. */
  function MatchGroups(url: string, alts: seq<seq<Atom>>): (m: Option<YouTubeMatch>)
    ensures m.None? <==> forall k :: 0 <= k <= FirstLineEnd(url) ==> GroupAt(url, k, alts) == 0
    ensures m.Some? ==>
      m.value.markerStart <= FirstLineEnd(url) && GroupAt(url, m.value.markerStart, alts) > 0
    ensures m.Some? ==>
      forall j :: m.value.markerStart < j <= FirstLineEnd(url) ==> GroupAt(url, j, alts) == 0
    ensures m.Some? ==> m.value.markerEnd == m.value.markerStart + GroupAt(url, m.value.markerStart, alts)
    ensures m.Some? ==> IsCapture(url, m.value.markerEnd, m.value.videoId)
  {
    var last := LastMarkerUpTo(url, FirstLineEnd(url), alts);
    if last.None? then None
    else
      var k := last.value;
      var n := GroupAt(url, k, alts);
      var e := RunEnd(url, k + n);
      CaptureIsRun(url, k + n);
      Some(YouTubeMatch(k, k + n, url[k + n..e]))
  }

  /** `url.match(regExp)` with the pattern of `getYouTubeId`. */
  function MatchYouTube(url: string): (m: Option<YouTubeMatch>)
    ensures m.None? <==> forall k :: 0 <= k <= FirstLineEnd(url) ==> GroupAt(url, k, Markers) == 0
    ensures m.Some? ==> m.value.markerStart <= FirstLineEnd(url) && GroupAt(url, m.value.markerStart, Markers) > 0
    ensures m.Some? ==> forall j :: m.value.markerStart < j <= FirstLineEnd(url) ==> GroupAt(url, j, Markers) == 0
    ensures m.Some? ==> m.value.markerEnd == m.value.markerStart + GroupAt(url, m.value.markerStart, Markers)
    ensures m.Some? ==> IsCapture(url, m.value.markerEnd, m.value.videoId)
  {
    MatchGroups(url, Markers)
  }

  /** `[^#&?]*` matched greedily from `g` gives `id`: `id` is the text of `url`
      from `g` on, holds no `#`, `&` or `?`, and is followed by one of them or
      by the end of `url`. */
  ghost predicate IsCapture(url: string, g: nat, id: string) {
    g + |id| <= |url| && id == url[g..g + |id|] &&
    (forall i :: 0 <= i < |id| ==> !IsCaptureStop(id[i])) &&
    (g + |id| < |url| ==> IsCaptureStop(url[g + |id|]))
  }

  /** The run `RunEnd` delimits is the capture. */
  lemma CaptureIsRun(url: string, g: nat)
    requires g <= |url|
    ensures IsCapture(url, g, url[g..RunEnd(url, g)])
  {
    var e := RunEnd(url, g);
    var id := url[g..e];
    forall i | 0 <= i < |id| ensures !IsCaptureStop(id[i]) {
      assert id[i] == url[g + i];
    }
  }

  /** `getYouTubeId`: the second group when it is exactly 11 characters long,
      otherwise null. */
  function GetYouTubeId(url: string): (r: Option<string>)
    ensures (forall k :: 0 <= k <= FirstLineEnd(url) ==> GroupAt(url, k, Markers) == 0) ==> r.None?
    ensures r.Some? <==> MatchYouTube(url).Some? && |MatchYouTube(url).value.videoId| == 11
    ensures r.Some? ==> r.value == MatchYouTube(url).value.videoId
    ensures r.Some? ==> |r.value| == 11 && forall i :: 0 <= i < |r.value| ==> !IsCaptureStop(r.value[i])
  {
    var m := MatchYouTube(url);
    if m.Some? && |m.value.videoId| == 11 then Some(m.value.videoId) else None
  }
}
