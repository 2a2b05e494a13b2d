/**
 * frontend/scripts/update-posts.js: the post index built from the `.mdx`
 * files. Read time, excerpt, cover-image choice, per-field defaults and the
 * newest-first order are modelled; reading the directory, parsing front matter
 * and writing `posts.js` are left to the caller, so each file comes in with its
 * front matter already parsed, the files under `public/` come in as a set of
 * image paths, and dates come with an ordering key.
 */
module UpdatePosts {
  import opened Wrappers
  import opened Text

  const WORDS_PER_MINUTE: nat := 200

  // ---------------------------------------------------------------------------
  // calculateReadTime
  // ---------------------------------------------------------------------------

  /** `s.split(/\s+/)`: the pieces between maximal runs of whitespace (empty at either end when `s` starts or ends with whitespace). */
  function SpaceSplit(s: string): (pieces: seq<string>)
    ensures |pieces| >= 1
    decreases |s|
  {
    if |s| == 0 then [""]
    else if IsJsSpace(s[0]) then [""] + SpaceSplit(TrimStart(s))
    else
      var rest := SpaceSplit(s[1..]);
      [[s[0]] + rest[0]] + rest[1..]
  }

  /** The number of positions where a whitespace run starts, scanning one character at a time. */
  function RunStarts(s: string, afterSpace: bool): nat
    decreases |s|
  {
    if |s| == 0 then 0
    else (if IsJsSpace(s[0]) && !afterSpace then 1 else 0) + RunStarts(s[1..], IsJsSpace(s[0]))
  }

  lemma {:induction false} RunStartsSkip(t: string)
    ensures RunStarts(t, true) == RunStarts(TrimStart(t), false)
    decreases |t|
  {
    if |t| > 0 && IsJsSpace(t[0]) {
      RunStartsSkip(t[1..]);
    }
  }

  /** The split has one piece more than there are whitespace runs. */
  lemma {:induction false} SpaceSplitCount(s: string)
    ensures |SpaceSplit(s)| == 1 + RunStarts(s, false)
    decreases |s|
  {
    if |s| > 0 {
      if IsJsSpace(s[0]) {
        assert TrimStart(s) == TrimStart(s[1..]);
        SpaceSplitCount(TrimStart(s));
        RunStartsSkip(s[1..]);
      } else {
        SpaceSplitCount(s[1..]);
      }
    }
  }

  /** `Math.ceil(words / WORDS_PER_MINUTE)` for the word count of `content`. */
  function ReadMinutes(content: string): (m: nat)
    ensures m >= 1
    ensures (m - 1) * WORDS_PER_MINUTE < |SpaceSplit(content)| <= m * WORDS_PER_MINUTE
  {
    var words := |SpaceSplit(content)|;
    var m := (words + WORDS_PER_MINUTE - 1) / WORDS_PER_MINUTE;
    assert words + 199 == m * 200 + (words + 199) % 200;
    m
  }

  /** `calculateReadTime(content)`: the minute count in decimal followed by ` min read`. */
  function CalculateReadTime(content: string): (r: string)
    ensures EndsWith(r, " min read")
    ensures var digits := r[..|r| - 9];
      |digits| >= 1 && (forall i :: 0 <= i < |digits| ==> '0' <= digits[i] <= '9') &&
      DigitsValue(digits) == ReadMinutes(content)
  {
    var d := NatToString(ReadMinutes(content));
    NatToStringValue(ReadMinutes(content));
    var r := d + " min read";
    assert r[..|r| - 9] == d;
    assert r[|r| - 9..] == " min read";
    r
  }

  // ---------------------------------------------------------------------------
  // extractExcerpt
  // ---------------------------------------------------------------------------

  /** `s.split(sep)` for a non-empty string separator, matched left to right without overlap. */
  function SplitOn(s: string, sep: string): (parts: seq<string>)
    requires |sep| > 0
    ensures |parts| >= 1
    decreases |s|
  {
    if |s| == 0 then [""]
    else if StartsWith(s, sep) then [""] + SplitOn(s[|sep|..], sep)
    else
      var rest := SplitOn(s[1..], sep);
      [[s[0]] + rest[0]] + rest[1..]
  }

  /** The first paragraph is a prefix of the content. */
  lemma {:induction false} SplitOnFirst(s: string, sep: string)
    requires |sep| > 0
    ensures |SplitOn(s, sep)[0]| <= |s| && SplitOn(s, sep)[0] == s[..|SplitOn(s, sep)[0]|]
    decreases |s|
  {
    if |s| > 0 && !StartsWith(s, sep) {
      var rest := SplitOn(s[1..], sep);
      SplitOnFirst(s[1..], sep);
      assert [s[0]] + rest[0] == s[..1 + |rest[0]|];
    }
  }

  /** `sep` occurs in `t` at `q`. */
  predicate OccursAt(t: string, sep: string, q: int)
  {
    0 <= q && q + |sep| <= |t| && t[q..q + |sep|] == sep
  }

  /** No paragraph contains the separator: every occurrence is consumed by the split. */
  lemma {:induction false} SplitOnPartsFree(s: string, sep: string)
    requires |sep| > 0
    ensures forall n, q :: 0 <= n < |SplitOn(s, sep)| ==> !OccursAt(SplitOn(s, sep)[n], sep, q)
    decreases |s|
  {
    var parts := SplitOn(s, sep);
    if |s| > 0 {
      if StartsWith(s, sep) {
        var rest := SplitOn(s[|sep|..], sep);
        SplitOnPartsFree(s[|sep|..], sep);
        assert parts == [""] + rest;
        forall n, q | 0 <= n < |parts| ensures !OccursAt(parts[n], sep, q) {
          if n > 0 { assert parts[n] == rest[n - 1]; }
        }
      } else {
        var rest := SplitOn(s[1..], sep);
        SplitOnPartsFree(s[1..], sep);
        SplitOnFirst(s[1..], sep);
        assert parts == [[s[0]] + rest[0]] + rest[1..];
        forall n, q | 0 <= n < |parts| ensures !OccursAt(parts[n], sep, q) {
          if n > 0 {
            assert parts[n] == rest[n];
          } else if q == 0 {
          } else if OccursAt(parts[0], sep, q) {
            assert parts[0][q..q + |sep|] == rest[0][q - 1..q - 1 + |sep|];
            assert OccursAt(rest[0], sep, q - 1);
          }
        }
      }
    }
  }

  /** `parts.join(sep)`. */
  function JoinOn(parts: seq<string>, sep: string): string
  {
    if |parts| == 0 then ""
    else if |parts| == 1 then parts[0]
    else parts[0] + sep + JoinOn(parts[1..], sep)
  }

  lemma JoinOnExtend(x: string, rest: seq<string>, sep: string)
    requires |rest| >= 1
    ensures JoinOn([x + rest[0]] + rest[1..], sep) == x + JoinOn(rest, sep)
  {
    var parts := [x + rest[0]] + rest[1..];
    if |rest| > 1 {
      assert parts[1..] == rest[1..];
    }
  }

  /** Joining the paragraphs back gives the content. */
  lemma {:induction false} JoinSplitOn(s: string, sep: string)
    requires |sep| > 0
    ensures JoinOn(SplitOn(s, sep), sep) == s
    decreases |s|
  {
    if |s| > 0 {
      if StartsWith(s, sep) {
        var t := s[|sep|..];
        JoinSplitOn(t, sep);
        var rest := SplitOn(t, sep);
        assert SplitOn(s, sep) == [""] + rest;
        assert ([""] + rest)[1..] == rest;
        assert JoinOn([""] + rest, sep) == "" + sep + JoinOn(rest, sep);
        assert s == sep + t;
      } else {
        var rest := SplitOn(s[1..], sep);
        JoinSplitOn(s[1..], sep);
        assert SplitOn(s, sep) == [[s[0]] + rest[0]] + rest[1..];
        JoinOnExtend([s[0]], rest, sep);
        assert s == [s[0]] + s[1..];
      }
    }
  }

  /** A paragraph the excerpt may come from: not a heading, not an image, more than 10 characters. */
  predicate Qualifies(p: string)
  {
    !StartsWith(p, "#") && !StartsWith(p, "![") && |p| > 10
  }

  predicate IsMark(c: char)
  {
    c == '#' || c == '*' || c == '`'
  }

  /** `s.replace(/[#*`]/g, '')`. */
  function StripMarks(s: string): (r: string)
    ensures |r| <= |s|
    ensures forall c :: c in r ==> c in s && !IsMark(c)
    ensures forall c :: multiset(r)[c] == if IsMark(c) then 0 else multiset(s)[c]
    ensures (forall q :: 0 <= q < |s| ==> !IsMark(s[q])) ==> r == s
  {
    if |s| == 0 then ""
    else
      assert s == [s[0]] + s[1..];
      if IsMark(s[0]) then StripMarks(s[1..])
      else [s[0]] + StripMarks(s[1..])
  }

  /** Stripping works character by character, so it keeps the order of what it keeps. */
  lemma {:induction false} StripMarksAppend(a: string, b: string)
    ensures StripMarks(a + b) == StripMarks(a) + StripMarks(b)
    decreases |a|
  {
    if |a| > 0 {
      assert (a + b)[1..] == a[1..] + b;
      StripMarksAppend(a[1..], b);
    } else {
      assert a + b == b;
    }
  }

  /** The first position at or after `from` holding `c`. */
  function FindChar(s: string, c: char, from: nat): (r: Option<nat>)
    requires from <= |s|
    ensures r.Some? ==> from <= r.value < |s| && s[r.value] == c && c !in s[from..r.value]
    ensures r.None? ==> c !in s[from..]
    decreases |s| - from
  {
    if from == |s| then None
    else if s[from] == c then Some(from)
    else
      var r := FindChar(s, c, from + 1);
      assert r.Some? ==> s[from..r.value] == [s[from]] + s[from + 1..r.value];
      assert s[from..] == [s[from]] + s[from + 1..];
      r
  }

  /**
   * The match of `/\[([^\]]+)\]\([^)]+\)/` starting at `i`, if any: the link
   * text and the position just after the match. Neither class can step over
   * its closing character, so the first `]` and the first `)` decide.
   */
  function LinkAt(s: string, i: nat): (r: Option<(string, nat)>)
    requires i < |s|
    ensures r.Some? ==> i + 1 + |r.value.0| < r.value.1 <= |s| && r.value.0 == s[i + 1..i + 1 + |r.value.0|]
    ensures r.Some? ==> LinkShape(s, i, i + 1 + |r.value.0|, r.value.1 - 1)
  {
    if s[i] != '[' then None
    else match FindChar(s, ']', i + 1)
      case None => None
      case Some(j) =>
        if j == i + 1 || j + 1 >= |s| || s[j + 1] != '(' then None
        else match FindChar(s, ')', j + 2)
          case None => None
          case Some(k) => if k == j + 2 then None else Some((s[i + 1..j], k + 1))
  }

  /** `/\[([^\]]+)\]\([^)]+\)/` matches at `i` with its `]` at `j` and its `)` at `k`. */
  predicate LinkShape(s: string, i: int, j: int, k: int)
  {
    0 <= i && i + 1 < j && j + 2 < k < |s| &&
    s[i] == '[' && s[j] == ']' && s[j + 1] == '(' && s[k] == ')' &&
    (forall q :: i + 1 <= q < j ==> s[q] != ']') && (forall q :: j + 2 <= q < k ==> s[q] != ')')
  }

  lemma FindCharAt(s: string, c: char, from: nat, j: nat)
    requires from <= j < |s| && s[j] == c
    requires forall q :: from <= q < j ==> s[q] != c
    ensures FindChar(s, c, from) == Some(j)
  {
  }

  /** Whenever the pattern matches at `i`, `LinkAt` finds that match: the text and the position after `)`. */
  lemma LinkAtMatches(s: string, i: nat, j: nat, k: nat)
    requires LinkShape(s, i, j, k)
    ensures LinkAt(s, i) == Some((s[i + 1..j], k + 1))
  {
    FindCharAt(s, ']', i + 1, j);
    FindCharAt(s, ')', j + 2, k);
  }

  /** `s.slice(i).replace(/\[([^\]]+)\]\([^)]+\)/g, '$1')`: scanning left to right, each link becomes its text. */
  function UnwrapLinks(s: string, i: nat): (r: string)
    requires i <= |s|
    ensures |r| <= |s| - i
    ensures forall c :: c in r ==> c in s[i..]
    decreases |s| - i
  {
    if i == |s| then ""
    else match LinkAt(s, i)
      case Some((text, next)) =>
        SliceWithin(s, i, i + 1, i + 1 + |text|);
        SuffixWithin(s, i, next);
        text + UnwrapLinks(s, next)
      case None =>
        SliceWithin(s, i, i, i + 1);
        SuffixWithin(s, i, i + 1);
        [s[i]] + UnwrapLinks(s, i + 1)
  }

  lemma SliceWithin(s: string, i: nat, a: nat, b: nat)
    requires i <= a <= b <= |s|
    ensures forall c :: c in s[a..b] ==> c in s[i..]
  {
    forall c | c in s[a..b] ensures c in s[i..] {
      var q :| 0 <= q < b - a && s[a..b][q] == c;
      assert s[i..][a - i + q] == c;
    }
  }

  lemma SuffixWithin(s: string, i: nat, a: nat)
    requires i <= a <= |s|
    ensures forall c :: c in s[a..] ==> c in s[i..]
  {
    forall c | c in s[a..] ensures c in s[i..] {
      var q :| 0 <= q < |s| - a && s[a..][q] == c;
      assert s[i..][a - i + q] == c;
    }
  }

  /** Text without `[` up to `m` is kept as it is. */
  lemma {:induction false} UnwrapPlain(s: string, i: nat, m: nat)
    requires i <= m <= |s|
    requires forall q :: i <= q < m ==> s[q] != '['
    ensures UnwrapLinks(s, i) == s[i..m] + UnwrapLinks(s, m)
    decreases m - i
  {
    if i < m {
      var rest := UnwrapLinks(s, m);
      calc {
        UnwrapLinks(s, i);
      == { UnwrapPlainStep(s, i); }
        [s[i]] + UnwrapLinks(s, i + 1);
      == { UnwrapPlain(s, i + 1, m); }
        [s[i]] + (s[i + 1..m] + rest);
      == { assert s[i..m] == [s[i]] + s[i + 1..m]; ConsAppend(s[i], s[i + 1..m], rest, s[i..m]); }
        s[i..m] + rest;
      }
    }
  }

  lemma ConsAppend(x: char, a: string, b: string, whole: string)
    requires whole == [x] + a
    ensures [x] + (a + b) == whole + b
  {
  }

  lemma UnwrapPlainStep(s: string, i: nat)
    requires i < |s| && s[i] != '['
    ensures UnwrapLinks(s, i) == [s[i]] + UnwrapLinks(s, i + 1)
  {
    assert LinkAt(s, i).None?;
  }

  /** Where the pattern matches, the link becomes its text and the scan goes on after the `)`. */
  lemma UnwrapAtLink(s: string, i: nat, j: nat, k: nat)
    requires LinkShape(s, i, j, k)
    ensures UnwrapLinks(s, i) == s[i + 1..j] + UnwrapLinks(s, k + 1)
  {
    LinkAtMatches(s, i, j, k);
  }

  /** `[t](u)` followed by anything is a link with text `t` that ends after the `)`. */
  lemma LinkLiteral(t: string, u: string, w: string)
    requires |t| > 0 && |u| > 0 && ']' !in t && ')' !in u
    ensures LinkAt("[" + t + "](" + u + ")" + w, 0) == Some((t, |t| + |u| + 4))
  {
    var m := "[" + t + "](" + u + ")" + w;
    var j := 1 + |t|;
    var k := j + 2 + |u|;
    assert LinkShape(m, 0, j, k) && m[1..j] == t by {
      assert m == (("[" + t) + ("](" + u)) + (")" + w);
      assert m[..j] == "[" + t;
      assert m[j..k] == "](" + u;
      assert m[k..] == ")" + w;
      assert forall q :: 1 <= q < j ==> m[q] == t[q - 1] by {
        forall q | 1 <= q < j ensures m[q] == t[q - 1] {
          assert m[q] == m[..j][q];
        }
      }
      assert forall q :: j + 2 <= q < k ==> m[q] == u[q - j - 2] by {
        forall q | j + 2 <= q < k ensures m[q] == u[q - j - 2] {
          assert m[q] == m[j..k][q - j];
        }
      }
      assert m[j] == m[j..k][0] && m[j + 1] == m[j..k][1] && m[k] == m[k..][0];
      assert m[1..j] == m[..j][1..];
    }
    LinkAtMatches(m, 0, j, k);
  }

  /** A `[` that opens no link stays, and the scan moves one character on. */
  lemma UnwrapUnmatched(s: string, i: nat)
    requires i < |s|
    requires forall j, k :: !LinkShape(s, i, j, k)
    ensures UnwrapLinks(s, i) == [s[i]] + UnwrapLinks(s, i + 1)
  {
  }

  /** `s.substring(0, n)`. */
  function Prefix(s: string, n: nat): (r: string)
    ensures |r| <= n && |r| <= |s| && r == s[..|r|]
  {
    if |s| <= n then s else s[..n]
  }

  /**
   * The clean-up of a chosen paragraph: strip marks, unwrap links, cut to 160,
   * trim, append `...`. The result is at most 163 characters, ends in `...`,
   * and has no `#`, `*` or backtick before that suffix.
   */
  function CleanParagraph(p: string): (r: string)
    ensures |r| <= 163
    ensures EndsWith(r, "...")
    ensures forall i :: 0 <= i < |r| - 3 ==> !IsMark(r[i])
  {
    var d := Trim(Prefix(UnwrapLinks(StripMarks(p), 0), 160));
    CleanedHasNoMarks(p);
    AppendEllipsis(d);
    d + "..."
  }

  /** Stripping, unwrapping, cutting and trimming leave no mark behind and at most 160 characters. */
  lemma CleanedHasNoMarks(p: string)
    ensures var d := Trim(Prefix(UnwrapLinks(StripMarks(p), 0), 160));
      |d| <= 160 && forall x :: x in d ==> !IsMark(x)
  {
    var a := StripMarks(p);
    var b := UnwrapLinks(a, 0);
    var c := Prefix(b, 160);
    var d := Trim(c);
    assert a[0..] == a;
    assert forall x :: x in c ==> x in b;
    var t := TrimStart(c);
    assert forall x :: x in t ==> x in c;
    assert forall x :: x in d ==> x in t;
  }

  /**
   * A paragraph with no mark and no `[` is only cut and trimmed: when it has
   * no surrounding whitespace it comes back whole if it has at most 160
   * characters, and as its first 160 otherwise when those end in no whitespace.
   */
  lemma CleanPlainParagraph(p: string)
    requires forall q :: 0 <= q < |p| ==> !IsMark(p[q]) && p[q] != '['
    requires |p| > 0 ==> !IsJsSpace(p[0])
    ensures |p| <= 160 && (|p| > 0 ==> !IsJsSpace(p[|p| - 1])) ==> CleanParagraph(p) == p + "..."
    ensures |p| > 160 && !IsJsSpace(p[159]) ==> CleanParagraph(p) == p[..160] + "..."
  {
    UnwrapPlain(p, 0, |p|);
    assert UnwrapLinks(p, 0) == p;
    var c := Prefix(p, 160);
    assert TrimStart(c) == c;
    if |c| > 0 && !IsJsSpace(c[|c| - 1]) {
      assert TrimEnd(c) == c;
    }
  }

  /** Appending `...` to a mark-free text. */
  lemma AppendEllipsis(d: string)
    requires forall x :: x in d ==> !IsMark(x)
    ensures EndsWith(d + "...", "...")
    ensures forall i :: 0 <= i < |d + "..."| - 3 ==> !IsMark((d + "...")[i])
  {
    var r := d + "...";
    assert r[|r| - 3..] == "...";
    forall i | 0 <= i < |r| - 3 ensures !IsMark(r[i]) {
      assert r[i] == d[i];
      assert d[i] in d;
    }
  }


  /** `ps[i]` qualifies and no paragraph before it does. */
  predicate FirstToQualify(ps: seq<string>, i: nat)
    requires i < |ps|
  {
    Qualifies(ps[i]) && forall j :: 0 <= j < i ==> !Qualifies(ps[j])
  }

  /** The first paragraph from `i` on that qualifies. */
  function FirstQualifying(ps: seq<string>, i: nat): (r: Option<nat>)
    requires i <= |ps|
    ensures r.Some? ==> i <= r.value < |ps| && Qualifies(ps[r.value]) &&
                        forall j :: i <= j < r.value ==> !Qualifies(ps[j])
    ensures r.None? ==> forall j :: i <= j < |ps| ==> !Qualifies(ps[j])
    decreases |ps| - i
  {
    if i == |ps| then None
    else if Qualifies(ps[i]) then Some(i)
    else FirstQualifying(ps, i + 1)
  }

  /** `extractExcerpt(content, providedExcerpt, title)`. */
  function ExtractExcerpt(content: string, provided: Option<string>, title: string): (r: string)
    ensures provided.Some? && provided.value != "" ==> r == provided.value
    ensures !(provided.Some? && provided.value != "") ==>
      var ps := SplitOn(content, "\n\n");
      (exists i :: 0 <= i < |ps| && FirstToQualify(ps, i) && r == CleanParagraph(ps[i])) ||
      ((forall i :: 0 <= i < |ps| ==> !Qualifies(ps[i])) && r == "Learn more about " + title + "...")
  {
    if provided.Some? && provided.value != "" then provided.value
    else
      var paragraphs := SplitOn(content, "\n\n");
      match FirstQualifying(paragraphs, 0)
      case Some(i) =>
        assert FirstToQualify(paragraphs, i);
        CleanParagraph(paragraphs[i])
      case None => "Learn more about " + title + "..."
  }

  /** Without a provided excerpt the result always ends in `...`. */
  lemma ExcerptEndsWithEllipsis(content: string, title: string)
    ensures EndsWith(ExtractExcerpt(content, None, title), "...")
  {
    var paragraphs := SplitOn(content, "\n\n");
    match FirstQualifying(paragraphs, 0)
    case Some(i) =>
    case None =>
      var r := "Learn more about " + title + "...";
      assert r[|r| - 3..] == "...";
  }

  // ---------------------------------------------------------------------------
  // imageExists, getCoverImage
  // ---------------------------------------------------------------------------

  const DEFAULT_IMAGE: string := "/images/blog/blogs.jpg"

  const DEFAULT_IMAGES: map<string, string> := map[
    "Technology" := "/images/blog/ai-research.svg",
    "Engineering" := "/images/blog/blogs.jpg",
    "Product Management" := "/images/blog/product-management.jpg",
    "Social Impact" := "/images/blog/social-impact.jpg",
    "default" := DEFAULT_IMAGE
  ]

  /** `imageExists(p)`: anything not rooted at `/` counts as present; a rooted path must be a file under `public/`. */
  predicate ImageExists(p: string, publicFiles: set<string>)
  {
    !StartsWith(p, "/") || p in publicFiles
  }

  /** `DEFAULT_IMAGES[category] || DEFAULT_IMAGES.default`. */
  function CategoryImage(category: string): (r: string)
    ensures r != ""
    ensures category in DEFAULT_IMAGES ==> r == DEFAULT_IMAGES[category]
    ensures category !in DEFAULT_IMAGES ==> r == DEFAULT_IMAGE
  {
    if category in DEFAULT_IMAGES then DEFAULT_IMAGES[category] else DEFAULT_IMAGES["default"]
  }

  /** The first position at or after `from` that is a line terminator, or the end. */
  function LineEnd(s: string, from: nat): (e: nat)
    requires from <= |s|
    ensures from <= e <= |s|
    ensures forall q :: from <= q < e ==> !IsLineTerminator(s[q])
    ensures e < |s| ==> IsLineTerminator(s[e])
    decreases |s| - from
  {
    if from == |s| || IsLineTerminator(s[from]) then from else LineEnd(s, from + 1)
  }

  /** `](` starts at `q`. */
  predicate OpensTarget(s: string, q: int)
  {
    0 <= q && q + 1 < |s| && s[q] == ']' && s[q + 1] == '('
  }

  /** The first `](` starting in `[from, end - 1)`. */
  function FindTarget(s: string, from: nat, end: nat): (r: Option<nat>)
    requires from <= end <= |s|
    ensures r.Some? ==> from <= r.value && r.value + 1 < end && OpensTarget(s, r.value) &&
                        forall q :: from <= q < r.value ==> !OpensTarget(s, q)
    ensures r.None? ==> forall q :: from <= q && q + 1 < end ==> !OpensTarget(s, q)
    decreases end - from
  {
    if from + 1 >= end then None
    else if OpensTarget(s, from) then Some(from)
    else FindTarget(s, from + 1, end)
  }

  /** The first `)` in `[from, end)`. */
  function FindClose(s: string, from: nat, end: nat): (r: Option<nat>)
    requires from <= end <= |s|
    ensures r.Some? ==> from <= r.value < end && s[r.value] == ')' &&
                        forall q :: from <= q < r.value ==> s[q] != ')'
    ensures r.None? ==> forall q :: from <= q < end ==> s[q] != ')'
    decreases end - from
  {
    if from >= end then None
    else if s[from] == ')' then Some(from)
    else FindClose(s, from + 1, end)
  }

  /**
   * The capture of `/!\[.*?\]\((.*?)\)/` for a match starting at `i`. The
   * lazy `.*?` cannot cross a line terminator, so everything stays on the
   * line of `i`; the first `](` on it and then the first `)` decide, since a
   * later `](` leaves less of the line for the `)`.
   */
  function ImageAt(s: string, i: nat): Option<string>
    requires i <= |s|
  {
    if i + 2 > |s| || s[i] != '!' || s[i + 1] != '[' then None
    else
      var e := LineEnd(s, i + 2);
      match FindTarget(s, i + 2, e)
      case None => None
      case Some(j) =>
        match FindClose(s, j + 2, e)
        case None => None
        case Some(k) => Some(s[j + 2..k])
  }

  /** The regular expression matches at `i` with `](` at `j` and `)` at `k`, all on one line. */
  predicate ImageShape(s: string, i: int, j: int, k: int)
  {
    0 <= i && i + 2 <= j && j + 2 <= k < |s| &&
    s[i] == '!' && s[i + 1] == '[' && OpensTarget(s, j) && s[k] == ')' &&
    forall q :: i + 2 <= q < k ==> !IsLineTerminator(s[q])
  }

  /** A match at `i` exists exactly when the shape does, and its capture lies between the first `](` and the first `)` after it. */
  lemma ImageAtShape(s: string, i: nat, j: nat, k: nat)
    requires i <= |s|
    ensures ImageShape(s, i, j, k) ==> ImageAt(s, i).Some?
    ensures ImageAt(s, i).Some? ==>
              exists j', k' :: ImageShape(s, i, j', k') && ImageAt(s, i).value == s[j' + 2..k'] &&
                               (forall q :: i + 2 <= q < j' ==> !OpensTarget(s, q)) &&
                               (forall q :: j' + 2 <= q < k' ==> s[q] != ')')
  {
    if ImageShape(s, i, j, k) {
      var e := LineEnd(s, i + 2);
      assert !IsLineTerminator(s[k]);
      assert k < e;
      var t := FindTarget(s, i + 2, e);
      assert t.Some?;
      assert FindClose(s, t.value + 2, e).Some?;
    }
    if ImageAt(s, i).Some? {
      var e := LineEnd(s, i + 2);
      var j' := FindTarget(s, i + 2, e).value;
      var k' := FindClose(s, j' + 2, e).value;
      assert ImageShape(s, i, j', k');
    }
  }

  /** No image matches at any position in `[from, to)`. */
  predicate NoImageBetween(s: string, from: nat, to: nat)
    requires to <= |s| + 1
    decreases |s| + 1 - from
  {
    from >= to || (ImageAt(s, from).None? && NoImageBetween(s, from + 1, to))
  }

  /** `NoImageBetween` says what its name says. */
  lemma {:induction false} NoImageBetweenMeans(s: string, from: nat, to: nat)
    requires to <= |s| + 1
    ensures NoImageBetween(s, from, to) <==> (forall q :: from <= q < to ==> ImageAt(s, q).None?)
    decreases |s| + 1 - from
  {
    if from < to {
      NoImageBetweenMeans(s, from + 1, to);
    }
  }

  /** `content.match(/!\[.*?\]\((.*?)\)/)` searching from `from`: the capture of the leftmost match. */
  function FirstImageFrom(s: string, from: nat): (r: Option<string>)
    requires from <= |s|
    ensures r.Some? ==> exists i :: from <= i <= |s| && ImageAt(s, i) == r && NoImageBetween(s, from, i)
    ensures r.None? ==> NoImageBetween(s, from, |s| + 1)
    decreases |s| - from
  {
    if ImageAt(s, from).Some? then
      assert NoImageBetween(s, from, from);
      ImageAt(s, from)
    else if from == |s| then
      assert NoImageBetween(s, from + 1, |s| + 1);
      None
    else
      FirstImageFrom(s, from + 1)
  }

  /** The capture of the leftmost match from `from` on, and no earlier position from `from` on matches. */
  lemma FirstImageLeftmost(s: string, from: nat)
    requires from <= |s|
    ensures FirstImageFrom(s, from).Some? ==>
      exists i :: from <= i <= |s| && ImageAt(s, i) == FirstImageFrom(s, from) &&
        (forall q :: from <= q < i ==> ImageAt(s, q).None?)
    ensures FirstImageFrom(s, from).None? ==> forall i :: from <= i <= |s| ==> ImageAt(s, i).None?
  {
    NoImageBetweenMeans(s, from, |s| + 1);
    if FirstImageFrom(s, from).Some? {
      var i :| from <= i <= |s| && ImageAt(s, i) == FirstImageFrom(s, from) && NoImageBetween(s, from, i);
      NoImageBetweenMeans(s, from, i);
    }
  }

  /** `content.match(/!\[.*?\]\((.*?)\)/)`: the leftmost match searching from the start. */
  function FirstImage(content: string): Option<string>
  {
    FirstImageFrom(content, 0)
  }

  /** `getCoverImage(data, content, category)`. */
  function GetCoverImage(cover: Option<string>, content: string, category: string, publicFiles: set<string>): (r: string)
    ensures ImageExists(r, publicFiles) || r == DEFAULT_IMAGE
  {
    if cover.Some? && cover.value != "" && ImageExists(cover.value, publicFiles) then cover.value
    else
      var m := FirstImage(content);
      if m.Some? && m.value != "" && ImageExists(m.value, publicFiles) then m.value
      else
        var d := CategoryImage(category);
        if !ImageExists(d, publicFiles) then DEFAULT_IMAGES["default"] else d
  }

  /** The images worth trying, in order: the front-matter cover, the first image of the body, the category's default. */
  function CoverCandidates(cover: Option<string>, content: string, category: string): seq<string>
  {
    var m := FirstImage(content);
    (if cover.Some? && cover.value != "" then [cover.value] else []) +
    (if m.Some? && m.value != "" then [m.value] else []) +
    [CategoryImage(category)]
  }

  /** The first candidate that exists, else the site-wide default. */
  function FirstExisting(candidates: seq<string>, publicFiles: set<string>): string
  {
    if |candidates| == 0 then DEFAULT_IMAGE
    else if ImageExists(candidates[0], publicFiles) then candidates[0]
    else FirstExisting(candidates[1..], publicFiles)
  }

  /** The cover is the first existing candidate. */
  lemma CoverIsFirstExisting(cover: Option<string>, content: string, category: string, publicFiles: set<string>)
    ensures GetCoverImage(cover, content, category, publicFiles) ==
            FirstExisting(CoverCandidates(cover, content, category), publicFiles)
  {
    assert DEFAULT_IMAGES["default"] == DEFAULT_IMAGE;
    CoverChoice(cover, FirstImage(content), CategoryImage(category), publicFiles);
  }

  /** The chain of `if`s tries the three candidates in order. */
  lemma CoverChoice(cover: Option<string>, m: Option<string>, d: string, publicFiles: set<string>)
    ensures (if cover.Some? && cover.value != "" && ImageExists(cover.value, publicFiles) then cover.value
             else if m.Some? && m.value != "" && ImageExists(m.value, publicFiles) then m.value
             else if !ImageExists(d, publicFiles) then DEFAULT_IMAGE else d)
            == FirstExisting((if cover.Some? && cover.value != "" then [cover.value] else []) +
                             (if m.Some? && m.value != "" then [m.value] else []) + [d], publicFiles)
  {
    var a := if cover.Some? && cover.value != "" then [cover.value] else [];
    var b := if m.Some? && m.value != "" then [m.value] else [];
    var c := [d];
    assert (a + b) + c == a + (b + c);
    FirstExistingCons(d, [], publicFiles);
    assert c == [d] + [];
    if b != [] {
      FirstExistingCons(m.value, c, publicFiles);
    } else {
      assert b + c == c;
    }
    if a != [] {
      FirstExistingCons(cover.value, b + c, publicFiles);
    } else {
      assert a + (b + c) == b + c;
    }
  }

  /** Trying `x` first, then the rest. */
  lemma FirstExistingCons(x: string, rest: seq<string>, publicFiles: set<string>)
    ensures FirstExisting([x] + rest, publicFiles) ==
            if ImageExists(x, publicFiles) then x else FirstExisting(rest, publicFiles)
  {
    assert ([x] + rest)[1..] == rest;
  }

  // ---------------------------------------------------------------------------
  // generatePosts
  // ---------------------------------------------------------------------------

  /** The front-matter fields read; a field that is absent or not a string is `None`. */
  datatype FrontMatter = FrontMatter(
    title: Option<string>, subtitle: Option<string>, date: Option<string>,
    category: Option<string>, readTime: Option<string>, excerpt: Option<string>,
    coverImage: Option<string>, authorName: Option<string>, authorAvatar: Option<string>,
    tags: Option<seq<string>>)

  /** A directory entry with its parsed front matter and body. */
  datatype MdxFile = MdxFile(name: string, data: FrontMatter, content: string)

  datatype Author = Author(name: string, avatar: string)

  datatype Post = Post(
    id: int, slug: string, title: string, subtitle: string, content: string,
    date: string, readTime: string, category: string, author: Author,
    excerpt: string, coverImage: string, tags: seq<string>)

  /** `x || fallback` for an optional string. */
  function OrElse(x: Option<string>, fallback: string): (r: string)
    ensures x.Some? && x.value != "" ==> r == x.value
    ensures !(x.Some? && x.value != "") ==> r == fallback
  {
    if x.Some? && x.value != "" then x.value else fallback
  }

  /** `files.filter(file => file.endsWith('.mdx'))`. */
  function MdxFiles(dir: seq<MdxFile>): (r: seq<MdxFile>)
    ensures forall f :: f in r <==> f in dir && EndsWith(f.name, ".mdx")
    ensures |r| <= |dir|
  {
    if |dir| == 0 then []
    else (if EndsWith(dir[0].name, ".mdx") then [dir[0]] else []) + MdxFiles(dir[1..])
  }

  /** `.mdx` occurs in `name` only as its last four characters. */
  predicate NoMdxBefore(name: string)
  {
    forall q :: 0 <= q < |name| - 4 ==> !StartsWith(name[q..], ".mdx")
  }

  /**
   * The post built for the `index`-th `.mdx` file; `today` is the formatted
   * current date. Its id is its position plus one; title, category, read
   * time, excerpt and author are never empty; a truthy front-matter title is
   * kept; the cover exists or is the default; a name whose only `.mdx` is its
   * ending is the slug plus `.mdx`.
   */
  function MakePost(file: MdxFile, index: nat, today: string, publicFiles: set<string>): (p: Post)
    ensures p.id == index + 1 && p.title != "" && p.category != "" && p.readTime != "" && p.excerpt != ""
    ensures p.author.name != "" && p.author.avatar != ""
    ensures ImageExists(p.coverImage, publicFiles) || p.coverImage == DEFAULT_IMAGE
    ensures file.data.title.Some? && file.data.title.value != "" ==> p.title == file.data.title.value
    ensures EndsWith(file.name, ".mdx") && NoMdxBefore(file.name) ==> p.slug + ".mdx" == file.name
  {
    var data := file.data;
    var title := OrElse(data.title, "Untitled Post");
    var category := OrElse(data.category, "Uncategorized");
    var slug := RemoveFirst(file.name, ".mdx");
    MdxSlug(file.name);
    var readTime := OrElse(data.readTime, CalculateReadTime(file.content));
    var excerpt := ExtractExcerpt(file.content, data.excerpt, title);
    ExcerptEndsWithEllipsis(file.content, title);
    assert excerpt != "";
    var author := Author(OrElse(data.authorName, "Jonathan Vu"), OrElse(data.authorAvatar, "/images/avatar/avatar.jpg"));
    var cover := GetCoverImage(data.coverImage, file.content, category, publicFiles);
    Post(
      index + 1, slug, title, OrElse(data.subtitle, ""), "Sample content here...", OrElse(data.date, today),
      readTime, category, author, excerpt, cover,
      if data.tags.Some? then data.tags.value else [])
  }

  /** A name whose only `.mdx` is its ending loses exactly that ending. */
  lemma MdxSlug(name: string)
    ensures EndsWith(name, ".mdx") && NoMdxBefore(name) ==> RemoveFirst(name, ".mdx") + ".mdx" == name
  {
    if EndsWith(name, ".mdx") && NoMdxBefore(name) {
      var base := name[..|name| - 4];
      assert name == base + ".mdx" + "";
      RemoveFirstAt(base, ".mdx", "");
      assert base + "" + ".mdx" == name;
    }
  }

  /** `files.map((file, index) => ...)`. */
  function BuildPosts(files: seq<MdxFile>, today: string, publicFiles: set<string>): (posts: seq<Post>)
    ensures |posts| == |files|
    ensures forall i :: 0 <= i < |files| ==> posts[i] == MakePost(files[i], i, today, publicFiles)
  {
    seq(|files|, i requires 0 <= i < |files| => MakePost(files[i], i, today, publicFiles))
  }

  /** Posts are numbered 1, 2, ... in directory order. */
  lemma BuildPostsIds(files: seq<MdxFile>, today: string, publicFiles: set<string>)
    ensures var posts := BuildPosts(files, today, publicFiles);
      forall i :: 0 <= i < |posts| ==> posts[i].id == i + 1
  {
  }

  /** `p` comes before `q`: strictly newer, or as new and earlier in directory order. */
  predicate Before(p: Post, q: Post, dateKey: string -> int)
  {
    dateKey(p.date) > dateKey(q.date) || (dateKey(p.date) == dateKey(q.date) && p.id < q.id)
  }

  predicate SortedRange(s: seq<Post>, lo: int, hi: int, dateKey: string -> int)
    requires 0 <= lo <= hi <= |s|
  {
    forall p, q :: lo <= p < q < hi ==> Before(s[p], s[q], dateKey)
  }

  /** The order of `posts.sort((a, b) => new Date(b.date) - new Date(a.date))`, which is stable. */
  predicate NewestFirst(s: seq<Post>, dateKey: string -> int)
  {
    SortedRange(s, 0, |s|, dateKey)
  }

  /**
   * The array sort: insertion by adjacent swaps, moving a post left only past
   * strictly older posts, so posts with equal dates keep their order.
   */
  method SortNewestFirst(a: array<Post>, dateKey: string -> int)
    requires forall p, q :: 0 <= p < q < a.Length ==> a[p].id < a[q].id
    modifies a
    ensures multiset(a[..]) == multiset(old(a[..]))
    ensures NewestFirst(a[..], dateKey)
  {
    var i := 0;
    while i < a.Length
      invariant 0 <= i <= a.Length
      invariant SortedRange(a[..], 0, i, dateKey)
      invariant forall p, q :: 0 <= p < i <= q < a.Length ==> a[p].id < a[q].id
      invariant forall p, q :: i <= p < q < a.Length ==> a[p].id < a[q].id
      invariant multiset(a[..]) == multiset(old(a[..]))
    {
      InsertAt(a, i, dateKey);
      i := i + 1;
    }
  }

  /**
   * Midway through inserting the post that started at `i`: it now sits at
   * `j`, ahead of everything it has passed, and has the largest id of
   * `s[..i + 1]`.
   */
  predicate Inserting(s: seq<Post>, j: int, i: int, dateKey: string -> int)
  {
    0 <= j <= i < |s| &&
    SortedRange(s, 0, j, dateKey) && SortedRange(s, j + 1, i + 1, dateKey) &&
    (forall p, q :: 0 <= p < j < q <= i ==> Before(s[p], s[q], dateKey)) &&
    (forall q :: j < q <= i ==> Before(s[j], s[q], dateKey)) &&
    (forall p :: 0 <= p <= i && p != j ==> s[p].id < s[j].id) &&
    (forall p, q :: 0 <= p <= i < q < |s| ==> s[p].id < s[q].id)
  }

  /** Swapping the post with a strictly older predecessor keeps the insertion invariant. */
  lemma SwapKeepsInserting(s: seq<Post>, j: int, i: int, dateKey: string -> int)
    requires Inserting(s, j, i, dateKey) && j > 0 && dateKey(s[j - 1].date) < dateKey(s[j].date)
    ensures Inserting(s[j - 1 := s[j]][j := s[j - 1]], j - 1, i, dateKey)
  {
    var t := s[j - 1 := s[j]][j := s[j - 1]];
    assert forall q :: j - 1 < q <= i ==> Before(t[j - 1], t[q], dateKey) by {
      forall q | j - 1 < q <= i ensures Before(t[j - 1], t[q], dateKey) {
        if q > j {
          assert Before(s[j - 1], s[q], dateKey);
        }
      }
    }
  }

  /** When the post stops, the whole of `s[..i + 1]` is in order. */
  lemma StopSorted(s: seq<Post>, j: int, i: int, dateKey: string -> int)
    requires Inserting(s, j, i, dateKey) && (j == 0 || dateKey(s[j - 1].date) >= dateKey(s[j].date))
    ensures SortedRange(s, 0, i + 1, dateKey)
  {
    if j > 0 {
      assert Before(s[j - 1], s[j], dateKey);
    }
    assert forall p :: 0 <= p < j ==> Before(s[p], s[j], dateKey) by {
      forall p | 0 <= p < j ensures Before(s[p], s[j], dateKey) {
        if p < j - 1 {
          assert Before(s[p], s[j - 1], dateKey);
        }
      }
    }
  }

  /** `s` with the neighbours at `j - 1` and `j` exchanged. */
  function Swap(s: seq<Post>, j: int): (t: seq<Post>)
    requires 0 < j < |s|
    ensures |t| == |s| && t[j - 1] == s[j] && t[j] == s[j - 1]
    ensures forall q :: 0 <= q < |s| && q != j - 1 && q != j ==> t[q] == s[q]
  {
    s[j - 1 := s[j]][j := s[j - 1]]
  }

  /** Before any swap, the post at `i` is being inserted at `i`. */
  lemma StartInserting(s: seq<Post>, i: int, dateKey: string -> int)
    requires 0 <= i < |s| && SortedRange(s, 0, i, dateKey)
    requires forall p, q :: 0 <= p <= i < q < |s| ==> s[p].id < s[q].id
    requires forall p :: 0 <= p < i ==> s[p].id < s[i].id
    ensures Inserting(s, i, i, dateKey)
  {
  }

  /** Before an insertion step: `s[..i]` in order, and the post at `i` has a larger id than those before it and a smaller one than those after. */
  predicate ReadyToInsert(s: seq<Post>, i: int, dateKey: string -> int)
  {
    0 <= i < |s| && SortedRange(s, 0, i, dateKey) &&
    (forall p, q :: 0 <= p <= i < q < |s| ==> s[p].id < s[q].id) &&
    (forall p :: 0 <= p < i ==> s[p].id < s[i].id)
  }

  /** The state of the insertion loop: `Inserting`, with the posts after `i` untouched and the same posts overall. */
  predicate InsertLoop(s: seq<Post>, start: seq<Post>, j: int, i: int, dateKey: string -> int)
  {
    Inserting(s, j, i, dateKey) && |start| == |s| && s[i + 1..] == start[i + 1..] && multiset(s) == multiset(start)
  }

  /** What one insertion step achieves: `s[..i + 1]` in order, ids up to `i` below those after, the rest untouched, the same posts. */
  predicate Inserted(s: seq<Post>, start: seq<Post>, i: int, dateKey: string -> int)
  {
    0 <= i < |s| == |start| &&
    SortedRange(s, 0, i + 1, dateKey) &&
    (forall p, q :: 0 <= p <= i < q < |s| ==> s[p].id < s[q].id) &&
    s[i + 1..] == start[i + 1..] && multiset(s) == multiset(start)
  }

  /** One swap keeps the loop state. */
  lemma SwapStep(s: seq<Post>, j: int, i: int, start: seq<Post>, dateKey: string -> int)
    requires InsertLoop(s, start, j, i, dateKey) && j > 0 && dateKey(s[j - 1].date) < dateKey(s[j].date)
    ensures InsertLoop(Swap(s, j), start, j - 1, i, dateKey)
  {
    var t := Swap(s, j);
    assert t == s[j - 1 := s[j]][j := s[j - 1]];
    SwapKeepsInserting(s, j, i, dateKey);
    assert s == s[..j - 1] + [s[j - 1], s[j]] + s[j + 1..];
    assert t == s[..j - 1] + [s[j], s[j - 1]] + s[j + 1..];
    assert t[i + 1..] == s[i + 1..];
  }

  /** The loop starts in its state, at `j == i`. */
  lemma StartStep(s: seq<Post>, i: int, dateKey: string -> int)
    requires ReadyToInsert(s, i, dateKey)
    ensures InsertLoop(s, s, i, i, dateKey)
  {
    StartInserting(s, i, dateKey);
  }

  /** When the post stops, the step is done. */
  lemma StopStep(s: seq<Post>, start: seq<Post>, j: int, i: int, dateKey: string -> int)
    requires InsertLoop(s, start, j, i, dateKey) && (j == 0 || dateKey(s[j - 1].date) >= dateKey(s[j].date))
    ensures Inserted(s, start, i, dateKey)
  {
    StopSorted(s, j, i, dateKey);
  }

  /** One insertion step: `a[i]` moves left past the strictly older posts of the sorted `a[..i]`. */
  method InsertAt(a: array<Post>, i: int, dateKey: string -> int)
    requires ReadyToInsert(a[..], i, dateKey)
    modifies a
    ensures Inserted(a[..], old(a[..]), i, dateKey)
  {
    ghost var start := a[..];
    StartStep(start, i, dateKey);
    var j := i;
    while j > 0 && dateKey(a[j - 1].date) < dateKey(a[j].date)
      invariant InsertLoop(a[..], start, j, i, dateKey)
    {
      ghost var s := a[..];
      a[j - 1], a[j] := a[j], a[j - 1];
      assert a[..] == Swap(s, j);
      SwapStep(s, j, i, start, dateKey);
      j := j - 1;
    }
    StopStep(a[..], start, j, i, dateKey);
  }

  lemma NewestFirstTail(s: seq<Post>, dateKey: string -> int)
    requires NewestFirst(s, dateKey) && |s| > 0
    ensures NewestFirst(s[1..], dateKey)
  {
    assert forall p :: 0 <= p < |s| - 1 ==> s[1..][p] == s[p + 1];
  }

  /** Both arrangements start with the same post: the one that comes before all others. */
  lemma HeadsAgree(s: seq<Post>, t: seq<Post>, dateKey: string -> int)
    requires NewestFirst(s, dateKey) && NewestFirst(t, dateKey) && multiset(s) == multiset(t) && |s| > 0
    ensures |t| > 0 && s[0] == t[0]
  {
    assert s[0] in multiset(t);
    var k :| 0 <= k < |t| && t[k] == s[0];
    assert t[0] in multiset(s);
    var m :| 0 <= m < |s| && s[m] == t[0];
    assert k == 0;
  }

  /** Two newest-first arrangements of the same posts are the same sequence: the sort's output is determined. */
  lemma {:induction false} NewestFirstUnique(s: seq<Post>, t: seq<Post>, dateKey: string -> int)
    requires NewestFirst(s, dateKey) && NewestFirst(t, dateKey) && multiset(s) == multiset(t)
    ensures s == t
    decreases |s|
  {
    if |s| > 0 {
      HeadsAgree(s, t, dateKey);
      assert s == [s[0]] + s[1..] && t == [t[0]] + t[1..];
      assert multiset(s) == multiset([s[0]]) + multiset(s[1..]);
      assert multiset(t) == multiset([s[0]]) + multiset(t[1..]);
      assert multiset(s[1..]) == multiset(s) - multiset([s[0]]);
      assert multiset(t[1..]) == multiset(t) - multiset([s[0]]);
      NewestFirstTail(s, dateKey);
      NewestFirstTail(t, dateKey);
      NewestFirstUnique(s[1..], t[1..], dateKey);
    } else {
      assert |t| == |multiset(t)| == 0;
    }
  }

  /** `generatePosts()`: the posts of the `.mdx` files, newest first. */
  method GeneratePosts(dir: seq<MdxFile>, today: string, publicFiles: set<string>, dateKey: string -> int)
    returns (posts: seq<Post>)
    ensures multiset(posts) == multiset(BuildPosts(MdxFiles(dir), today, publicFiles))
    ensures NewestFirst(posts, dateKey)
    ensures |MdxFiles(dir)| == 0 ==> posts == []
  {
    var files := MdxFiles(dir);
    if |files| == 0 {
      return [];
    }
    var built := BuildPosts(files, today, publicFiles);
    BuildPostsIds(files, today, publicFiles);
    var arr := new Post[|built|](i requires 0 <= i < |built| => built[i]);
    assert arr[..] == built;
    SortNewestFirst(arr, dateKey);
    posts := arr[..];
  }
}
