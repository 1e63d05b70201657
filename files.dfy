/**
  downloadAndSendFile's decisions about a fetched file, and the file-name cleaner
  normalizeDuplicateExtension that runs on every file that passes them.
 */
module FileNames {
  import opened Optional
  import opened JsText
  import opened Records

  // ---------------------------------------------------------------------------
  // Screening a download

  /** Bodies shorter than this are taken for an error page. */
  const MinBody := 100

  /** Files larger than this are announced by link instead of uploaded. */
  const MaxDocument := 50 * 1024 * 1024

  /** How a download that was not already sent ends. */
  datatype Delivery =
    | NotDownloaded   // the request failed or did not answer 200
    | HtmlPage        // the server sent an HTML page (an expired session)
    | TooSmall        // fewer than 100 bytes
    | LinkOnly        // over 50 MB: the channel gets the link
    | Uploaded        // the document was handed to the channel
    | UploadFailed    // handing the document to the channel threw

  function Screen(dl: Download): (d: Delivery)
    ensures d == NotDownloaded <==> dl.DownloadFailed?
    ensures d == HtmlPage <==> dl.Downloaded? && Contains(dl.contentType, "text/html")
    ensures d == TooSmall <==> dl.Downloaded? && !Contains(dl.contentType, "text/html") && dl.size < MinBody
    ensures d in {LinkOnly, Uploaded, UploadFailed} ==>
              dl.Downloaded? && !Contains(dl.contentType, "text/html") && MinBody <= dl.size
    ensures d == LinkOnly <==> dl.Downloaded? && !Contains(dl.contentType, "text/html") && dl.size > MaxDocument
    ensures d == Uploaded <==>
              dl.Downloaded? && !Contains(dl.contentType, "text/html") && MinBody <= dl.size <= MaxDocument && dl.deliveryOk
  {
    match dl
    case DownloadFailed => NotDownloaded
    case Downloaded(contentType, size, deliveryOk) =>
      if Contains(contentType, "text/html") then HtmlPage
      else if size < MinBody then TooSmall
      else if size > MaxDocument then LinkOnly
      else if deliveryOk then Uploaded
      else UploadFailed
  }

  /** The file counts as sent (and is recorded) exactly when it was uploaded or announced by link. */
  predicate Delivered(d: Delivery) { d == LinkOnly || d == Uploaded }

  /** A delivered file had a body of at least 100 bytes that was not an HTML page. */
  lemma DeliveredBodiesAreFiles(dl: Download)
    requires Delivered(Screen(dl))
    ensures dl.Downloaded? && !Contains(dl.contentType, "text/html") && dl.size >= MinBody
  {}

  // ---------------------------------------------------------------------------
  // Cleaning the name

  /** The zero-width characters U+200B..U+200D and U+FEFF. */
  predicate IsZeroWidth(c: char) {
    c == '\U{200B}' || c == '\U{200C}' || c == '\U{200D}' || c == '\U{FEFF}'
  }

  /** The characters `<>:"/\|?*` that file systems refuse. */
  predicate IsReserved(c: char) {
    c == '<' || c == '>' || c == ':' || c == '"' || c == '/' || c == '\\' || c == '|' || c == '?' || c == '*'
  }

  predicate IsSpaceOrDot(c: char) { IsSpace(c) || c == '.' }

  /** Remove every zero-width character. */
  function DropZeroWidth(s: string): (r: string)
    ensures forall k :: 0 <= k < |r| ==> !IsZeroWidth(r[k])
    ensures forall c :: c in r ==> c in s
    ensures forall c :: c in s && !IsZeroWidth(c) ==> c in r
  {
    if s == [] then []
    else if IsZeroWidth(s[0]) then DropZeroWidth(s[1..])
    else [s[0]] + DropZeroWidth(s[1..])
  }

  /**
    Replace each white space / dot / white space run by one dot: at each position, a run of white space followed by a
    dot and the white space after it becomes one dot; where the white space is not
    followed by a dot, its first character is kept and the scan moves on.
   */
  function TightenDots(s: string): (r: string)
    ensures forall c :: c in r ==> c in s || c == '.'
    ensures '.' !in s ==> r == s
    decreases |s|
  {
    if s == [] then []
    else
      var a := Span(s, 0, IsSpace);
      if a < |s| && s[a] == '.' then
        var b := Span(s, a + 1, IsSpace);
        "." + TightenDots(s[b..])
      else [s[0]] + TightenDots(s[1..])
  }

  /** Replace each run of dots by one dot. */
  function CollapseDots(s: string): (r: string)
    ensures forall c :: c in r ==> c in s
    ensures forall k :: 0 <= k < |r| - 1 ==> !(r[k] == '.' && r[k + 1] == '.')
    ensures |r| > 0 ==> |s| > 0 && (r[0] == '.' <==> s[0] == '.')
    decreases |s|
  {
    if s == [] then []
    else if s[0] == '.' then "." + CollapseDots(s[Span(s, 0, c => c == '.')..])
    else [s[0]] + CollapseDots(s[1..])
  }

  /** Drop the trailing run of white space and dots. */
  function DropTrailingSpaceAndDots(s: string): (r: string)
    ensures |r| <= |s| && r == s[..|r|]
    ensures r != [] ==> !IsSpaceOrDot(r[|r| - 1])
  {
    if s != [] && IsSpaceOrDot(s[|s| - 1]) then DropTrailingSpaceAndDots(s[..|s| - 1]) else s
  }

  /** Replace each reserved character by an underscore. */
  function ReplaceReserved(s: string): (r: string)
    ensures |r| == |s|
    ensures forall k :: 0 <= k < |s| ==> r[k] == if IsReserved(s[k]) then '_' else s[k]
  {
    if s == [] then [] else [if IsReserved(s[0]) then '_' else s[0]] + ReplaceReserved(s[1..])
  }

  /** The cleaning chain before the name is split at its dots. */
  function CleanName(name: string): string {
    ReplaceReserved(TrimStart(DropTrailingSpaceAndDots(CollapseDots(TightenDots(DropZeroWidth(Trim(name)))))))
  }

  predicate NoZeroWidth(s: string) {
    forall k :: 0 <= k < |s| ==> !IsZeroWidth(s[k])
  }

  /** A stage whose characters come from its input, or are dots, keeps out zero-width characters. */
  lemma ZeroWidthStaysOut(s: string, r: string)
    requires NoZeroWidth(s)
    requires forall c :: c in r ==> c in s || c == '.'
    ensures NoZeroWidth(r)
  {
    forall k | 0 <= k < |r| ensures !IsZeroWidth(r[k]) {
      assert r[k] in r;
      if r[k] != '.' {
        var j :| 0 <= j < |s| && s[j] == r[k];
      }
    }
  }

  lemma ZeroWidthSuffix(s: string, r: string)
    requires NoZeroWidth(s) && |r| <= |s| && r == s[|s| - |r|..]
    ensures NoZeroWidth(r)
  {
    forall k | 0 <= k < |r| ensures !IsZeroWidth(r[k]) {
      assert r[k] == s[|s| - |r| + k];
    }
  }

  lemma ZeroWidthPrefix(s: string, r: string)
    requires NoZeroWidth(s) && |r| <= |s| && r == s[..|r|]
    ensures NoZeroWidth(r)
  {
    forall k | 0 <= k < |r| ensures !IsZeroWidth(r[k]) {
      assert r[k] == s[k];
    }
  }

  lemma TrimStartKeepsEnd(s: string)
    requires TrimStart(s) != []
    ensures TrimStart(s)[|TrimStart(s)| - 1] == s[|s| - 1]
  {}

  /**
    A cleaned name has no reserved and no zero-width character, does not start with
    white space and does not end with white space or a dot.
   */
  lemma CleanNameShape(name: string)
    ensures var n := CleanName(name);
      (forall k :: 0 <= k < |n| ==> !IsReserved(n[k]) && !IsZeroWidth(n[k]))
      && (n != [] ==> !IsSpace(n[0]) && !IsSpaceOrDot(n[|n| - 1]))
  {
    var e := TrimStart(DropTrailingSpaceAndDots(CollapseDots(TightenDots(DropZeroWidth(Trim(name))))));
    CleanedBeforeReplace(name);
    ReplacedShape(e);
  }

  lemma CleanedBeforeReplace(name: string)
    ensures var e := TrimStart(DropTrailingSpaceAndDots(CollapseDots(TightenDots(DropZeroWidth(Trim(name))))));
      NoZeroWidth(e) && (e != [] ==> !IsSpace(e[0]) && !IsSpaceOrDot(e[|e| - 1]))
  {
    var z := DropZeroWidth(Trim(name));
    var t := TightenDots(z);
    ZeroWidthStaysOut(z, t);
    var c := CollapseDots(t);
    ZeroWidthStaysOut(t, c);
    var d := DropTrailingSpaceAndDots(c);
    ZeroWidthPrefix(c, d);
    var e := TrimStart(d);
    ZeroWidthSuffix(d, e);
    if e != [] {
      TrimStartKeepsEnd(d);
    }
  }

  lemma ReplacedShape(e: string)
    requires NoZeroWidth(e) && (e != [] ==> !IsSpace(e[0]) && !IsSpaceOrDot(e[|e| - 1]))
    ensures var n := ReplaceReserved(e);
      (forall k :: 0 <= k < |n| ==> !IsReserved(n[k]) && !IsZeroWidth(n[k]))
      && (n != [] ==> !IsSpace(n[0]) && !IsSpaceOrDot(n[|n| - 1]))
  {}

  // ---------------------------------------------------------------------------
  // Dropping repeated extensions

  /** The middle parts that do not spell the extension, ignoring ASCII case. */
  function KeepOthers(parts: seq<string>, ext: string): (r: seq<string>)
    ensures |r| <= |parts|
  {
    if parts == [] then []
    else if Lower(parts[0]) == ext then KeepOthers(parts[1..], ext)
    else [parts[0]] + KeepOthers(parts[1..], ext)
  }

  lemma {:induction false} KeepOthersMembers(parts: seq<string>, ext: string)
    ensures forall p :: p in KeepOthers(parts, ext) <==> p in parts && Lower(p) != ext
    decreases |parts|
  {
    if parts != [] {
      KeepOthersMembers(parts[1..], ext);
      assert forall p :: p in parts <==> p == parts[0] || p in parts[1..];
    }
  }

  /** What the splice loop leaves: the first and last parts, and the middle parts that are not the extension. */
  function DedupParts(parts: seq<string>): (r: seq<string>)
    requires |parts| >= 3
  {
    var ext := Lower(parts[|parts| - 1]);
    [parts[0]] + KeepOthers(parts[1..|parts| - 1], ext) + [parts[|parts| - 1]]
  }

  /** The name the file is saved and sent under. */
  function NormalizedName(name: string): string {
    DedupName(CleanName(name))
  }

  /** A cleaned name with the middle copies of its extension dropped. */
  function DedupName(n: string): string {
    var parts := Split(n, '.');
    if |parts| <= 2 then n else Join(DedupParts(parts), '.')
  }

  /**
    normalizeDuplicateExtension: clean the name, and when it has at least two dots
    remove, from the second-to-last part down to the second part, every part that
    equals the extension ignoring case.
   */
  method NormalizeDuplicateExtension(name: string) returns (r: string)
    ensures r == NormalizedName(name)
  {
    var n := CleanName(name);
    var parts := Split(n, '.');
    if |parts| <= 2 {
      return n;
    }
    parts := DropRepeatedExtension(parts);
    r := Join(parts, '.');
  }

  /** The splice loop: walk down from the second-to-last part to the second. */
  method DropRepeatedExtension(orig: seq<string>) returns (parts: seq<string>)
    requires |orig| >= 3
    ensures parts == DedupParts(orig)
  {
    parts := orig;
    var len := |orig|;
    var ext := Lower(orig[len - 1]);
    var i := len - 2;
    ghost var kept: seq<string> := [];
    assert orig[..len - 1 + 1] == orig;
    while i >= 1
      invariant 0 <= i <= len - 2
      invariant SpliceInv(orig, parts, kept, i, ext)
      decreases i
    {
      SpliceStep(orig, parts, kept, i, ext);
      if Lower(parts[i]) == ext {
        parts := parts[..i] + parts[i + 1..];
      } else {
        kept := [orig[i]] + kept;
      }
      i := i - 1;
    }
    assert orig[..1] == [orig[0]];
  }

  /** The state of the splice loop at index `i`: the parts above `i` that were kept, then the extension. */
  ghost predicate SpliceInv(orig: seq<string>, parts: seq<string>, kept: seq<string>, i: nat, ext: string)
    requires i + 1 < |orig|
  {
    kept == KeepOthers(orig[i + 1..|orig| - 1], ext)
    && parts == orig[..i + 1] + (kept + [orig[|orig| - 1]])
  }

  /** One step of the splice loop keeps its state description. */
  lemma SpliceStep(orig: seq<string>, parts: seq<string>, kept: seq<string>, i: nat, ext: string)
    requires 1 <= i && i + 1 < |orig| && SpliceInv(orig, parts, kept, i, ext)
    ensures i < |parts| && parts[i] == orig[i]
    ensures Lower(orig[i]) == ext ==> SpliceInv(orig, parts[..i] + parts[i + 1..], kept, i - 1, ext)
    ensures Lower(orig[i]) != ext ==> SpliceInv(orig, parts, [orig[i]] + kept, i - 1, ext)
  {
    var len := |orig|;
    KeepOthersStep(orig, i, len - 1, ext);
    var tail := kept + [orig[len - 1]];
    SpliceAt(orig[..i], orig[i], tail);
    assert orig[..i + 1] == orig[..i] + [orig[i]];
    if Lower(orig[i]) != ext {
      assert parts == orig[..i] + ([orig[i]] + kept + [orig[len - 1]]);
    }
  }

  /** Removing the element after a prefix leaves the prefix and the tail. */
  lemma SpliceAt(p: seq<string>, x: string, t: seq<string>)
    ensures var s := p + [x] + t; s[|p|] == x && s[..|p|] + s[|p| + 1..] == p + t
  {
    var s := p + [x] + t;
    assert s[..|p|] == p;
    assert s[|p| + 1..] == t;
  }

  lemma KeepOthersStep(orig: seq<string>, i: nat, hi: nat, ext: string)
    requires i < hi <= |orig|
    ensures KeepOthers(orig[i..hi], ext) ==
            (if Lower(orig[i]) == ext then [] else [orig[i]]) + KeepOthers(orig[i + 1..hi], ext)
  {
    assert orig[i..hi][1..] == orig[i + 1..hi];
  }

  /** Splitting a join of dot-free parts gives the parts back. */
  lemma {:induction false} SplitJoin(parts: seq<string>)
    requires |parts| >= 1
    requires forall k :: 0 <= k < |parts| ==> '.' !in parts[k]
    ensures Split(Join(parts, '.'), '.') == parts
    decreases |parts|, |parts[0]|
  {
    if |parts| == 1 {
      SplitNoSeparator(parts[0]);
    } else if parts[0] == [] {
      var rest := Join(parts[1..], '.');
      assert Join(parts, '.') == "." + rest;
      SplitJoin(parts[1..]);
      assert [""] + parts[1..] == parts;
    } else {
      var p := parts[0];
      var tail := [p[1..]] + parts[1..];
      assert forall k :: 0 <= k < |tail| ==> '.' !in tail[k] by {
        forall k | 0 <= k < |tail| ensures '.' !in tail[k] {
          if k == 0 { assert forall c :: c in p[1..] ==> c in p; } else { assert tail[k] == parts[k]; }
        }
      }
      SplitJoin(tail);
      JoinCons(parts);
      assert p[0] != '.';
      SplitCons(p[0], Join(tail, '.'));
      assert [p[0]] + p[1..] == p;
      assert tail[1..] == parts[1..];
    }
  }

  /** Joining parts whose first part is not empty: the first character, then the rest joined. */
  lemma JoinCons(parts: seq<string>)
    requires |parts| >= 2 && parts[0] != []
    ensures Join(parts, '.') == [parts[0][0]] + Join([parts[0][1..]] + parts[1..], '.')
  {
    var p := parts[0];
    var tail := [p[1..]] + parts[1..];
    var rest := Join(parts[1..], '.');
    assert tail[0] == p[1..] && tail[1..] == parts[1..];
    assert Join(tail, '.') == p[1..] + ['.'] + rest;
    assert Join(parts, '.') == p + ['.'] + rest;
    assert [p[0]] + (p[1..] + ['.'] + rest) == ([p[0]] + p[1..]) + ['.'] + rest;
    assert [p[0]] + p[1..] == p;
  }

  /** Splitting a text that starts with a character other than a dot. */
  lemma SplitCons(c: char, j: string)
    requires c != '.'
    ensures Split([c] + j, '.') == [[c] + Split(j, '.')[0]] + Split(j, '.')[1..]
  {
    assert ([c] + j)[1..] == j;
  }

  lemma {:induction false} SplitNoSeparator(s: string)
    requires '.' !in s
    ensures Split(s, '.') == [s]
    decreases |s|
  {
    if s != [] {
      assert forall c :: c in s[1..] ==> c in s;
      SplitNoSeparator(s[1..]);
      assert [s[0]] + s[1..] == s;
    }
  }

  lemma {:induction false} KeepOthersNone(parts: seq<string>, ext: string)
    requires forall k :: 0 <= k < |parts| ==> Lower(parts[k]) != ext
    ensures KeepOthers(parts, ext) == parts
    decreases |parts|
  {
    if parts != [] {
      KeepOthersNone(parts[1..], ext);
    }
  }

  /**
    The parts of the normalised name are those of the cleaned name with every middle
    copy of the extension removed (DedupPartsShape says what that leaves).
   */
  lemma NormalizedParts(name: string)
    ensures var parts := Split(CleanName(name), '.');
      |parts| >= 3 ==>
        Split(NormalizedName(name), '.') == DedupParts(parts)
  {
    var parts := Split(CleanName(name), '.');
    if |parts| >= 3 {
      DedupRoundTrip(parts);
    }
  }

  /** Joining the parts left and splitting again gives them back. */
  lemma DedupRoundTrip(parts: seq<string>)
    requires |parts| >= 3 && forall k :: 0 <= k < |parts| ==> '.' !in parts[k]
    ensures Split(Join(DedupParts(parts), '.'), '.') == DedupParts(parts)
  {
    var d := DedupParts(parts);
    DedupPartsShape(parts);
    forall k | 0 <= k < |d| ensures '.' !in d[k] {
      var j :| 0 <= j < |parts| && parts[j] == d[k];
    }
    SplitJoin(d);
  }

  /** The first and last parts are kept, and every middle part left is an original part that is not the extension. */
  lemma DedupPartsShape(parts: seq<string>)
    requires |parts| >= 3
    ensures var d := DedupParts(parts);
      |d| >= 2 && d[0] == parts[0] && d[|d| - 1] == parts[|parts| - 1]
      && (forall k :: 0 <= k < |d| ==> d[k] in parts)
      && (forall k :: 0 < k < |d| - 1 ==> Lower(d[k]) != Lower(parts[|parts| - 1]))
  {
    var ext := Lower(parts[|parts| - 1]);
    var mid := KeepOthers(parts[1..|parts| - 1], ext);
    var d := DedupParts(parts);
    KeepOthersMembers(parts[1..|parts| - 1], ext);
    assert d == [parts[0]] + mid + [parts[|parts| - 1]];
    forall k | 0 < k < |d| - 1 ensures d[k] in parts && Lower(d[k]) != ext {
      assert d[k] == mid[k - 1];
      assert mid[k - 1] in mid;
    }
  }

  /** Dropping the repeated extensions a second time changes nothing. */
  lemma DedupIdempotent(parts: seq<string>)
    requires |parts| >= 3
    ensures |DedupParts(parts)| >= 3 ==> DedupParts(DedupParts(parts)) == DedupParts(parts)
  {
    var d := DedupParts(parts);
    if |d| >= 3 {
      var ext := Lower(parts[|parts| - 1]);
      var mid := KeepOthers(parts[1..|parts| - 1], ext);
      DedupPartsShape(parts);
      assert d == [parts[0]] + mid + [parts[|parts| - 1]];
      assert d[1..|d| - 1] == mid;
      forall k | 0 <= k < |mid| ensures Lower(mid[k]) != ext {
        assert mid[k] == d[k + 1];
      }
      KeepOthersNone(mid, ext);
    }
  }
}
