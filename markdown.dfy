/** The server's conversion between Markdown images and image placeholders (main.py):
    `preprocess_markdown_to_placeholders` replaces each match of the pattern
    `!\[([^\]]*)\]\(([^)]+)\)` with `[[img1]]`, `[[img2]]`, ... and records what each
    tag stood for; `postprocess_placeholders_to_markdown` puts the originals back. */
module Markdown {
  import opened Strings
  import opened Tokens

  /** One Markdown image `![alt](path)`. */
  datatype ImageRef = ImageRef(alt: string, path: string)
  {
    /** The pattern's constraints: `[^\]]*` for the alt text, `[^)]+` for the path. */
    predicate WellFormed()
    {
      ']' !in alt && path != [] && ')' !in path
    }

    function Markdown(): string
    {
      "![" + alt + "](" + path + ")"
    }
  }

  /** The first position of `c` in `s`. */
  function IndexOf(s: string, c: char): (r: Option<nat>)
    ensures r.Some? ==> r.value < |s|
  {
    if s == [] then None
    else if s[0] == c then Some(0)
    else match IndexOf(s[1..], c)
      case None => None
      case Some(i) => Some(i + 1)
  }

  /** `IndexOf` finds the first occurrence, and finds nothing only where there is none. */
  lemma {:induction false} IndexOfFinds(s: string, c: char)
    ensures IndexOf(s, c).None? ==> c !in s
    ensures IndexOf(s, c).Some? ==> s[IndexOf(s, c).value] == c && c !in s[..IndexOf(s, c).value]
  {
    if s != [] && s[0] != c {
      IndexOfFinds(s[1..], c);
      ConsSplit(s);
      if IndexOf(s[1..], c).Some? {
        var i := IndexOf(s[1..], c).value;
        assert s[..i + 1] == [s[0]] + s[1..][..i];
      }
    }
  }

  /** The regular expression tried at the start of `s`: `![`, then the alt text up to the
      first `]`, which must be followed by `(`, then a non-empty path up to the first
      `)`. Neither group can give back characters to let the rest match, so this is the
      only way the pattern can match here. */
  function MatchAt(s: string): (r: Option<ImageRef>)
    ensures r.Some? ==> 5 < |r.value.Markdown()| <= |s|
  {
    if |s| < 2 || s[0] != '!' || s[1] != '[' then None
    else match IndexOf(s[2..], ']')
      case None => None
      case Some(k) =>
        var after := s[k + 3..];
        if after == [] || after[0] != '(' then None
        else match IndexOf(after[1..], ')')
          case None => None
          case Some(m) =>
            if m == 0 then None
            else Some(ImageRef(s[2..k + 2], after[1..m + 1]))
  }

  /** What the pattern matches is a well-formed image at the start of `s`. */
  lemma MatchAtSound(s: string)
    ensures MatchAt(s).Some? ==> MatchAt(s).value.WellFormed() && IsPrefix(MatchAt(s).value.Markdown(), s)
  {
    if MatchAt(s).Some? {
      var img := MatchAt(s).value;
      MatchAtLayout(s);
      PartsMakeImage(s, img.alt, img.path);
    }
  }

  /** Where the pattern matches, the alt text and the path it captures are laid out
      around the delimiters and avoid the characters that end them. */
  lemma MatchAtLayout(s: string)
    requires MatchAt(s).Some?
    ensures var img := MatchAt(s).value;
      var k, m := |img.alt|, |img.path|;
      && img.WellFormed()
      && k + m + 5 <= |s| && s[0] == '!' && s[1] == '[' && s[2..k + 2] == img.alt && s[k + 2] == ']'
      && s[k + 3] == '(' && s[k + 4..k + 4 + m] == img.path && s[k + 4 + m] == ')'
  {
    var k := IndexOf(s[2..], ']').value;
    var after := s[k + 3..];
    var m := IndexOf(after[1..], ')').value;
    IndexOfFinds(s[2..], ']');
    IndexOfFinds(after[1..], ')');
    DropDrop(s, k + 3, 1);
    assert MatchAt(s).value == ImageRef(s[2..k + 2], after[1..m + 1]);
    DropTake(s, 2, k);
    DropTake(after, 1, m);
    DropTake(s, k + 4, m);
  }

  /** A text laid out as `![alt](path)...` starts with that image. */
  lemma PartsMakeImage(s: string, alt: string, path: string)
    requires var k, m := |alt|, |path|;
      && k + m + 5 <= |s| && s[0] == '!' && s[1] == '[' && s[2..k + 2] == alt && s[k + 2] == ']'
      && s[k + 3] == '(' && s[k + 4..k + 4 + m] == path && s[k + 4 + m] == ')'
    ensures IsPrefix(ImageRef(alt, path).Markdown(), s)
  {
    var r := ImageRef(alt, path);
    var md, k, m := r.Markdown(), |alt|, |path|;
    MarkdownParts(r);
    forall i | 0 <= i < |md| ensures s[..|md|][i] == md[i] {
      if 2 <= i < k + 2 {
        assert s[i] == s[2..k + 2][i - 2] && md[i] == md[2..k + 2][i - 2];
      } else if k + 4 <= i < k + 4 + m {
        assert s[i] == s[k + 4..k + 4 + m][i - k - 4] && md[i] == md[k + 4..k + 4 + m][i - k - 4];
      }
    }
  }

  /** The pattern matches at the start of `s` exactly when a well-formed image begins
      there, and then it matches that image. */
  lemma MatchAtComplete(r: ImageRef, s: string)
    ensures MatchAt(s) == Some(r) <==> r.WellFormed() && IsPrefix(r.Markdown(), s)
  {
    MatchAtSound(s);
    if r.WellFormed() && IsPrefix(r.Markdown(), s) {
      MatchAtFinds(r, s);
    }
  }

  lemma MatchAtFinds(r: ImageRef, s: string)
    requires r.WellFormed() && IsPrefix(r.Markdown(), s)
    ensures MatchAt(s) == Some(r)
  {
    ImageParts(r, s);
    MatchAtParts(s, r.alt, r.path);
  }

  /** Where `![alt](path)` starts `s`, each of its parts is in `s`. */
  lemma ImageParts(r: ImageRef, s: string)
    requires IsPrefix(r.Markdown(), s)
    ensures var k, m := |r.alt|, |r.path|;
      && k + m + 5 <= |s| && s[0] == '!' && s[1] == '[' && s[2..k + 2] == r.alt && s[k + 2] == ']'
      && s[k + 3] == '(' && s[k + 4..k + 4 + m] == r.path && s[k + 4 + m] == ')'
  {
    var md, k, m := r.Markdown(), |r.alt|, |r.path|;
    MarkdownParts(r);
    PrefixSlice(md, s, 0, 1);
    PrefixSlice(md, s, 1, 2);
    PrefixSlice(md, s, 2, k + 2);
    PrefixSlice(md, s, k + 2, k + 3);
    PrefixSlice(md, s, k + 3, k + 4);
    PrefixSlice(md, s, k + 4, k + 4 + m);
    PrefixSlice(md, s, k + 4 + m, k + 5 + m);
  }

  /** The pattern, tried on a text laid out as `![alt](path)...`, matches `alt` and `path`. */
  lemma MatchAtParts(s: string, alt: string, path: string)
    requires ']' !in alt && path != [] && ')' !in path
    requires var k, m := |alt|, |path|;
      && k + m + 5 <= |s| && s[0] == '!' && s[1] == '[' && s[2..k + 2] == alt && s[k + 2] == ']'
      && s[k + 3] == '(' && s[k + 4..k + 4 + m] == path && s[k + 4 + m] == ')'
    ensures MatchAt(s) == Some(ImageRef(alt, path))
  {
    var k, m := |alt|, |path|;
    MatchAtIndices(s, alt, path);
    var after := s[k + 3..];
    assert after[0] == '(';
    assert after[1..m + 1] == s[k + 4..k + 4 + m];
  }

  /** On such a text the two searches of the pattern stop at the parts' ends. */
  lemma MatchAtIndices(s: string, alt: string, path: string)
    requires ']' !in alt && ')' !in path
    requires var k, m := |alt|, |path|;
      && k + m + 5 <= |s| && s[2..k + 2] == alt && s[k + 2] == ']'
      && s[k + 4..k + 4 + m] == path && s[k + 4 + m] == ')'
    ensures IndexOf(s[2..], ']') == Some(|alt|)
    ensures IndexOf(s[|alt| + 3..][1..], ')') == Some(|path|)
  {
    var k, m := |alt|, |path|;
    IndexOfFirstAt(s, 2, ']', k);
    IndexOfFirstAt(s, k + 4, ')', m);
    DropDrop(s, k + 3, 1);
  }

  /** The first `c` at or after position `a` of `s` is `k` positions further on. */
  lemma IndexOfFirstAt(s: string, a: nat, c: char, k: nat)
    requires a + k < |s| && s[a + k] == c && c !in s[a..a + k]
    ensures IndexOf(s[a..], c) == Some(k)
  {
    assert s[a..][..k] == s[a..a + k];
    IndexOfFirst(s[a..], c, k);
  }

  /** Where each part of `![alt](path)` sits. */
  lemma MarkdownParts(r: ImageRef)
    ensures var md, k, m := r.Markdown(), |r.alt|, |r.path|;
      && |md| == k + m + 5 && md[0] == '!' && md[1] == '[' && md[2..k + 2] == r.alt
      && md[k + 2] == ']' && md[k + 3] == '(' && md[k + 4..k + 4 + m] == r.path && md[k + 4 + m] == ')'
  {
  }

  lemma {:induction false} IndexOfFirst(s: string, c: char, k: nat)
    requires k < |s| && s[k] == c && c !in s[..k]
    ensures IndexOf(s, c) == Some(k)
  {
    if k > 0 {
      assert s[0] == s[..k][0];
      assert s[1..][..k - 1] == s[1..k];
      IndexOfFirst(s[1..], c, k - 1);
    }
  }

  /** `t` is exactly one image the pattern matches in full. */
  predicate IsImageMarkdown(t: string)
  {
    MatchAt(t).Some? && MatchAt(t).value.Markdown() == t
  }

  /** The converted text and the tag-to-original mapping in insertion order (a Python
      dict keeps that order, and its keys here are distinct). */
  datatype Placeholdered = Placeholdered(text: string, mapping: seq<(string, string)>)

  /** `re.sub` with the replacer, when the counter stands at `count`: scanning from the
      left, each match becomes the next tag and is recorded; elsewhere the scan moves on
      by one character. */
  function Pre(s: string, count: nat): Placeholdered
    decreases |s|
  {
    if s == [] then Placeholdered([], [])
    else match MatchAt(s)
      case Some(img) =>
        var md := img.Markdown();
        var rest := Pre(s[|md|..], count + 1);
        Placeholdered(ImgToken(count) + rest.text, [(ImgToken(count), md)] + rest.mapping)
      case None =>
        var rest := Pre(s[1..], count);
        Placeholdered([s[0]] + rest.text, rest.mapping)
  }

  /** Where a match stands, it becomes the next tag and its original is recorded first. */
  lemma PreAtImage(s: string, count: nat, img: ImageRef)
    requires MatchAt(s) == Some(img)
    ensures var md := img.Markdown(); var rest := Pre(s[|md|..], count + 1);
      Pre(s, count) == Placeholdered(ImgToken(count) + rest.text, [(ImgToken(count), md)] + rest.mapping)
  {
  }

  /** Where no match starts, the character is copied. */
  lemma PreAtChar(s: string, count: nat)
    requires s != [] && MatchAt(s).None?
    ensures var rest := Pre(s[1..], count);
      Pre(s, count) == Placeholdered([s[0]] + rest.text, rest.mapping)
  {
  }

  /** The tags are `ImgToken(count)`, `ImgToken(count + 1)`, ... in order, and each
      recorded original is one whole image that the pattern matches. */
  predicate TaggedFrom(mapping: seq<(string, string)>, count: nat)
  {
    forall j :: 0 <= j < |mapping| ==> mapping[j].0 == ImgToken(count + j) && IsImageMarkdown(mapping[j].1)
  }

  lemma TaggedFromCons(md: string, rest: seq<(string, string)>, count: nat)
    requires IsImageMarkdown(md) && TaggedFrom(rest, count + 1)
    ensures TaggedFrom([(ImgToken(count), md)] + rest, count)
  {
    var m := [(ImgToken(count), md)] + rest;
    forall j | 0 <= j < |m| ensures m[j].0 == ImgToken(count + j) && IsImageMarkdown(m[j].1) {
      if j > 0 {
        assert m[j] == rest[j - 1];
      }
    }
  }

  /** The tags are numbered consecutively from `count` in order of appearance, and each
      recorded original is one whole image that the pattern matches. */
  lemma {:induction false} PreMapping(s: string, count: nat)
    ensures TaggedFrom(Pre(s, count).mapping, count)
    decreases |s|
  {
    if s != [] {
      match MatchAt(s) {
        case Some(img) =>
          var md := img.Markdown();
          PreMapping(s[|md|..], count + 1);
          MatchIsImage(s, img);
          PreAtImage(s, count, img);
          TaggedFromCons(md, Pre(s[|md|..], count + 1).mapping, count);
        case None => PreMapping(s[1..], count);
      }
    }
  }

  /** The originals of the matches, in order of appearance. */
  function Originals(s: string): seq<string>
    decreases |s|
  {
    if s == [] then []
    else match MatchAt(s)
      case Some(img) => [img.Markdown()] + Originals(s[|img.Markdown()|..])
      case None => Originals(s[1..])
  }

  /** The mapping records the originals in order, whatever the counter starts at. */
  lemma {:induction false} PreOriginals(s: string, count: nat)
    ensures |Pre(s, count).mapping| == |Originals(s)|
    ensures forall j :: 0 <= j < |Originals(s)| ==> Pre(s, count).mapping[j].1 == Originals(s)[j]
    decreases |s|
  {
    if s != [] {
      match MatchAt(s) {
        case Some(img) => PreOriginals(s[|img.Markdown()|..], count + 1);
        case None => PreOriginals(s[1..], count);
      }
    }
  }

  /** What the pattern matches is, on its own, matched whole. */
  lemma MatchIsImage(s: string, img: ImageRef)
    requires MatchAt(s) == Some(img)
    ensures IsImageMarkdown(img.Markdown())
  {
    MatchAtSound(s);
    MatchAtComplete(img, img.Markdown());
  }

  /** The pattern matches nowhere in `s`. */
  predicate NoImage(s: string)
  {
    forall i :: 0 <= i <= |s| ==> MatchAt(s[i..]).None?
  }

  /** Text without a match comes back unchanged, with an empty mapping. */
  lemma {:induction false} PreWithoutImages(s: string, count: nat)
    requires NoImage(s)
    ensures Pre(s, count) == Placeholdered(s, [])
    decreases |s|
  {
    if s != [] {
      assert MatchAt(s[0..]).None? && s[0..] == s;
      forall i | 0 <= i <= |s[1..]| ensures MatchAt(s[1..][i..]).None? {
        assert s[1..][i..] == s[i + 1..];
      }
      PreWithoutImages(s[1..], count);
      assert [s[0]] + s[1..] == s;
    }
  }

  /** The tags of one conversion are pairwise distinct, so the dict has one key per match. */
  lemma PreTagsDistinct(s: string, count: nat)
    ensures forall i, j :: 0 <= i < j < |Pre(s, count).mapping| ==>
      Pre(s, count).mapping[i].0 != Pre(s, count).mapping[j].0
  {
    PreMapping(s, count);
    TaggedDistinct(Pre(s, count).mapping, count);
  }

  lemma TaggedDistinct(mapping: seq<(string, string)>, count: nat)
    requires TaggedFrom(mapping, count)
    ensures forall i, j :: 0 <= i < j < |mapping| ==> mapping[i].0 != mapping[j].0
  {
    forall i, j | 0 <= i < j < |mapping| ensures mapping[i].0 != mapping[j].0 {
      if mapping[i].0 == mapping[j].0 {
        ImgTokenInjective(count + i, count + j);
      }
    }
  }

  /** `preprocess_markdown_to_placeholders` (main.py:38-57): the scan of `re.sub`, with
      the replacer's `count` and `mapping` updated as it goes. */
  method PreprocessMarkdownToPlaceholders(markdownText: string)
    returns (replacedText: string, mapping: seq<(string, string)>)
    ensures Placeholdered(replacedText, mapping) == Pre(markdownText, 1)
  {
    replacedText, mapping := [], [];
    var count := 1;
    var i := 0;
    ghost var suffix := markdownText;
    ghost var rest := Pre(suffix, 1);
    while i < |markdownText|
      invariant 0 <= i <= |markdownText| && suffix == markdownText[i..]
      invariant rest == Pre(suffix, count)
      invariant Pre(markdownText, 1) == Placeholdered(replacedText + rest.text, mapping + rest.mapping)
    {
      var s := markdownText[i..];
      match MatchAt(s) {
        case Some(img) =>
          var tag := ImgToken(count);
          var n := |img.Markdown()|;
          ghost var next := Pre(s[n..], count + 1);
          PreAtImage(s, count, img);
          AppendAssoc(replacedText, tag, next.text);
          AppendAssoc(mapping, [(tag, img.Markdown())], next.mapping);
          mapping := mapping + [(tag, img.Markdown())];
          count := count + 1;
          replacedText := replacedText + tag;
          DropDrop(markdownText, i, n);
          i := i + n;
          suffix, rest := s[n..], next;
        case None =>
          ghost var next := Pre(s[1..], count);
          PreAtChar(s, count);
          AppendAssoc(replacedText, [markdownText[i]], next.text);
          replacedText := replacedText + [markdownText[i]];
          DropDrop(markdownText, i, 1);
          i := i + 1;
          suffix, rest := s[1..], next;
      }
    }
    assert rest == Placeholdered([], []);
  }

  /** The loop of `postprocess_placeholders_to_markdown`: each tag in turn, in mapping
      order, is replaced everywhere by its original. */
  function PostAll(t: string, mapping: seq<(string, string)>): string
    decreases |mapping|
  {
    if mapping == [] then t else PostAll(Replace(t, mapping[0].0, mapping[0].1), mapping[1..])
  }

  /** `postprocess_placeholders_to_markdown` (main.py:59-65). */
  method PostprocessPlaceholdersToMarkdown(llmOutput: string, mapping: seq<(string, string)>)
    returns (r: string)
    ensures r == PostAll(llmOutput, mapping)
    ensures mapping == [] ==> r == llmOutput
  {
    r := llmOutput;
    for i := 0 to |mapping|
      invariant PostAll(llmOutput, mapping) == PostAll(r, mapping[i..])
    {
      assert mapping[i..][1..] == mapping[i + 1..];
      r := Replace(r, mapping[i].0, mapping[i].1);
    }
  }

  // ---------------------------------------------------------------------------
  // The round trip
  // ---------------------------------------------------------------------------

  /** The text half way through postprocessing: the matches numbered from `count` up to
      but not including `upTo` are back in their original form, later ones are still tags. */
  ghost function Mixed(s: string, count: nat, upTo: nat): string
    decreases |s|
  {
    if s == [] then []
    else match MatchAt(s)
      case Some(img) =>
        (if count < upTo then img.Markdown() else ImgToken(count)) + Mixed(s[|img.Markdown()|..], count + 1, upTo)
      case None => [s[0]] + Mixed(s[1..], count, upTo)
  }

  /** Before any tag is put back, the text is the preprocessed text. */
  lemma {:induction false} MixedAtStart(s: string, count: nat, upTo: nat)
    requires upTo <= count
    ensures Mixed(s, count, upTo) == Pre(s, count).text
    decreases |s|
  {
    if s != [] {
      match MatchAt(s) {
        case Some(img) => MixedAtStart(s[|img.Markdown()|..], count + 1, upTo);
        case None => MixedAtStart(s[1..], count, upTo);
      }
    }
  }

  /** Once every tag is put back, the text is the original. */
  lemma {:induction false} MixedAtEnd(s: string, count: nat, upTo: nat)
    requires count + |Originals(s)| <= upTo
    ensures Mixed(s, count, upTo) == s
    decreases |s|
  {
    if s != [] {
      match MatchAt(s) {
        case Some(img) =>
          var md := img.Markdown();
          MixedAtEnd(s[|md|..], count + 1, upTo);
          MatchAtSound(s);
          PrefixSplit(md, s);
        case None =>
          MixedAtEnd(s[1..], count, upTo);
          ConsSplit(s);
      }
    }
  }

  lemma AbsentInSuffix(w: string, s: string, k: nat)
    requires Absent(w, s) && k <= |s|
    ensures Absent(w, s[k..])
  {
    forall i | 0 <= i <= |s[k..]| ensures !StartsAt(w, s[k..], i) {
      assert !StartsAt(w, s, k + i);
      assert s[k..][i..] == s[k + i..];
    }
  }

  /** A text with no `!` and no `[` after its first character starts a mixed text only
      where it starts the original: a match contributes either an image (`!`) or a tag
      (`[[`). */
  lemma {:induction false} PrefixOfMixed(w: string, s: string, count: nat, upTo: nat)
    requires w != [] && '!' !in w && '[' !in w[1..] && (w[0] == '[' ==> 2 <= |w|)
    ensures IsPrefix(w, Mixed(s, count, upTo)) ==> IsPrefix(w, s)
    decreases |s|
  {
    if s != [] {
      var m := Mixed(s, count, upTo);
      match MatchAt(s) {
        case Some(img) =>
          var md := img.Markdown();
          var h := if count < upTo then md else ImgToken(count);
          MarkdownEnds(img);
          ImgTokenShape(count);
          assert m == h + Mixed(s[|md|..], count + 1, upTo);
          HeadBlocks(w, h, Mixed(s[|md|..], count + 1, upTo));
        case None =>
          var y := Mixed(s[1..], count, upTo);
          assert m == [s[0]] + y;
          ConsSplit(s);
          PrefixCons(w, s[0], y);
          PrefixCons(w, s[0], s[1..]);
          if |w| > 1 {
            PrefixOfMixed(w[1..], s[1..], count, upTo);
          } else {
            assert s[1..][..0] == w[1..];
          }
      }
    }
  }

  /** A text that starts with `!` or `[[` has no prefix that starts neither with `!` nor
      with `[[`. */
  lemma HeadBlocks(w: string, h: string, y: string)
    requires w != [] && '!' !in w && '[' !in w[1..] && (w[0] == '[' ==> 2 <= |w|)
    requires (h != [] && h[0] == '!') || (2 <= |h| && h[0] == '[' && h[1] == '[')
    ensures !IsPrefix(w, h + y)
  {
    var k := if h[0] == '!' || w[0] != '[' then 0 else 1;
    assert k == 1 ==> w[1] == w[1..][0];
    assert k < |w| && w[k] != (h + y)[k];
  }

  /** `![alt](path)` opens with `!` and closes with `)`. */
  lemma MarkdownEnds(img: ImageRef)
    ensures var md := img.Markdown(); md != [] && md[0] == '!' && md[|md| - 1] == ')'
  {
    MarkdownParts(img);
  }

  /** No image tag starts inside an original image taken from a text without `[[img`:
      it would either lie inside the image, or reach its closing `)`. */
  lemma OriginalSkip(md: string, rest: string, s: string, j: nat)
    requires IsPrefix(md, s) && md != [] && md[|md| - 1] == ')' && Absent(ImgOpen, s)
    ensures NoneStartsBefore(ImgToken(j), md + rest, |md|)
  {
    var t, x := ImgToken(j), md + rest;
    ImgTokenShape(j);
    forall i | 0 <= i < |md| ensures !StartsAt(t, x, i) {
      if i + |t| > |md| {
        var k := |md| - 1 - i;
        assert x[i..][k] == ')';
        assert k < |t| ==> t[k] != ')';
      } else {
        assert !StartsAt(ImgOpen, s, i);
        assert x[i..][..5] == s[i..][..5];
        assert t[..5] == ImgOpen;
      }
    }
  }

  /** A character where no match starts, in a text without `[[img`, starts no image tag
      in the mixed text either. */
  lemma SkipPlainChar(s: string, count: nat, upTo: nat, original: string)
    requires Absent(ImgOpen, s) && s != [] && MatchAt(s).None?
    ensures var y := Mixed(s[1..], count, upTo);
      Replace([s[0]] + y, ImgToken(upTo), original) == [s[0]] + Replace(y, ImgToken(upTo), original)
  {
    var t, y := ImgToken(upTo), Mixed(s[1..], count, upTo);
    var u := [s[0]] + y;
    ImgTokenShape(upTo);
    assert !IsPrefix(ImgOpen, s) by {
      assert !StartsAt(ImgOpen, s, 0) && s[0..] == s;
    }
    ConsSplit(s);
    assert ImgOpen[1..] == "[img";
    PrefixOfMixed("[img", s[1..], count, upTo);
    PrefixCons(ImgOpen, s[0], y);
    PrefixCons(ImgOpen, s[0], s[1..]);
    assert !IsPrefix(ImgOpen, u);
    PrefixTrans(ImgOpen, t, u);
    assert u[0..] == u;
    assert !StartsAt(t, u, 0);
    ReplaceSkipsPrefix([s[0]], y, t, original);
  }

  /** The image tag being put back is replaced where it stands. */
  lemma ReplaceAtTarget(t: string, y: string, original: string)
    requires t != []
    ensures Replace(t + y, t, original) == original + Replace(y, t, original)
  {
    assert (t + y)[..|t|] == t && (t + y)[|t|..] == y;
  }

  /** What one pass of the postprocessing loop needs: the text holds no `[[img`, tag
      `upTo` is one of the tags numbered from `count`, and when it stands for an image of
      this text, `original` is that image. */
  predicate PutBackReady(s: string, count: nat, upTo: nat, original: string)
  {
    && Absent(ImgOpen, s)
    && upTo < count + |Originals(s)|
    && (count <= upTo ==> original == Originals(s)[upTo - count])
  }

  /** One pass of the postprocessing loop: replacing tag `upTo` by the original it stands
      for (any replacement, if that tag is below `count`) puts that one image back. */
  lemma {:induction false} PutBackOne(s: string, count: nat, upTo: nat, original: string)
    ensures PutBackReady(s, count, upTo, original) ==>
      Replace(Mixed(s, count, upTo), ImgToken(upTo), original) == Mixed(s, count, upTo + 1)
    decreases |s|, 2
  {
    if s != [] && PutBackReady(s, count, upTo, original) {
      match MatchAt(s) {
        case Some(img) => PutBackAfterImage(s, count, upTo, original, img);
        case None => PutBackAfterChar(s, count, upTo, original);
      }
    }
  }

  /** `PutBackOne` where a match starts. */
  lemma {:induction false} PutBackAfterImage(s: string, count: nat, upTo: nat, original: string, img: ImageRef)
    requires PutBackReady(s, count, upTo, original) && MatchAt(s) == Some(img)
    ensures Replace(Mixed(s, count, upTo), ImgToken(upTo), original) == Mixed(s, count, upTo + 1)
    decreases |s|, 1
  {
    PutBackInRest(s, count, upTo, original, img);
    PutBackImageStep(s, count, upTo, original, img);
  }

  /** The induction step of `PutBackAfterImage`: the rest after the match. */
  lemma {:induction false} PutBackInRest(s: string, count: nat, upTo: nat, original: string, img: ImageRef)
    ensures PutBackReady(s, count, upTo, original) && MatchAt(s) == Some(img) ==>
      var rest := s[|img.Markdown()|..];
      Replace(Mixed(rest, count + 1, upTo), ImgToken(upTo), original) == Mixed(rest, count + 1, upTo + 1)
    decreases |s|, 0
  {
    if PutBackReady(s, count, upTo, original) && MatchAt(s) == Some(img) {
      RestOriginals(s, count, upTo, original, img);
      PutBackOne(s[|img.Markdown()|..], count + 1, upTo, original);
    }
  }

  /** Where a match stands, putting tag `upTo` back touches the match's own slot as
      `PutBackAtImage` says and leaves the rest to the rest. */
  lemma PutBackImageStep(s: string, count: nat, upTo: nat, original: string, img: ImageRef)
    requires PutBackReady(s, count, upTo, original) && MatchAt(s) == Some(img)
    ensures var md, t := img.Markdown(), ImgToken(upTo);
      var rest := s[|md|..];
      Replace(Mixed(s, count, upTo), t, original)
        == (if count < upTo + 1 then md else ImgToken(count)) + Replace(Mixed(rest, count + 1, upTo), t, original)
      && Mixed(s, count, upTo + 1) == (if count < upTo + 1 then md else ImgToken(count)) + Mixed(rest, count + 1, upTo + 1)
  {
    var md := img.Markdown();
    var y := Mixed(s[|md|..], count + 1, upTo);
    MarkdownEnds(img);
    MixedAtImage(s, count, upTo, img);
    MixedAtImage(s, count, upTo + 1, img);
    OriginalsAtImage(s, img);
    MatchAtSound(s);
    PutBackAtImage(s, md, y, count, upTo, original);
  }

  /** The conditions of `PutBackOne` carry over to the rest after a match. */
  lemma RestOriginals(s: string, count: nat, upTo: nat, original: string, img: ImageRef)
    requires PutBackReady(s, count, upTo, original) && MatchAt(s) == Some(img)
    ensures var rest := s[|img.Markdown()|..];
      |rest| < |s| && PutBackReady(rest, count + 1, upTo, original)
  {
    MarkdownEnds(img);
    AbsentInSuffix(ImgOpen, s, |img.Markdown()|);
    OriginalsAtImage(s, img);
  }

  lemma MixedAtImage(s: string, count: nat, upTo: nat, img: ImageRef)
    requires MatchAt(s) == Some(img)
    ensures var md := img.Markdown();
      Mixed(s, count, upTo) == (if count < upTo then md else ImgToken(count)) + Mixed(s[|md|..], count + 1, upTo)
  {
  }

  /** `PutBackOne` where no match starts. */
  lemma {:induction false} PutBackAfterChar(s: string, count: nat, upTo: nat, original: string)
    requires PutBackReady(s, count, upTo, original) && s != [] && MatchAt(s).None?
    ensures Replace(Mixed(s, count, upTo), ImgToken(upTo), original) == Mixed(s, count, upTo + 1)
    decreases |s|, 1
  {
    assert PutBackReady(s[1..], count, upTo, original) by {
      AbsentInSuffix(ImgOpen, s, 1);
    }
    PutBackOne(s[1..], count, upTo, original);
    SkipPlainChar(s, count, upTo, original);
  }

  /** Where a match stands, its original comes first and the rest's follow. */
  lemma OriginalsAtImage(s: string, img: ImageRef)
    requires MatchAt(s) == Some(img)
    ensures var o, o' := Originals(s), Originals(s[|img.Markdown()|..]);
      |o| == 1 + |o'| && o[0] == img.Markdown() && forall k :: 0 < k < |o| ==> o[k] == o'[k - 1]
  {
  }

  /** Where a match stood: its original is copied, its tag is replaced if it is the one
      being put back, and any other tag is copied. */
  lemma PutBackAtImage(s: string, md: string, y: string, count: nat, upTo: nat, original: string)
    requires IsPrefix(md, s) && md != [] && md[|md| - 1] == ')' && Absent(ImgOpen, s)
    requires count == upTo ==> original == md
    ensures Replace((if count < upTo then md else ImgToken(count)) + y, ImgToken(upTo), original)
      == (if count < upTo + 1 then md else ImgToken(count)) + Replace(y, ImgToken(upTo), original)
  {
    var t := ImgToken(upTo);
    ImgTokenShape(upTo);
    if count < upTo {
      OriginalSkip(md, y, s, upTo);
      ReplaceSkipsPrefix(md, y, t, original);
    } else if count == upTo {
      ReplaceAtTarget(t, y, original);
    } else {
      ImgTokenSkip(upTo, count, y);
      ReplaceSkipsPrefix(ImgToken(count), y, t, original);
    }
  }

  /** Postprocessing the tags from number `1 + i` on, starting from the text with the
      first `i` images already back, restores the original. */
  lemma {:induction false} PutBackRest(s: string, i: nat)
    requires Absent(ImgOpen, s) && i <= |Pre(s, 1).mapping|
    ensures PostAll(Mixed(s, 1, 1 + i), Pre(s, 1).mapping[i..]) == s
    decreases |Pre(s, 1).mapping| - i
  {
    var m := Pre(s, 1).mapping;
    if i == |m| {
      PreOriginals(s, 1);
      MixedAtEnd(s, 1, 1 + i);
      assert m[i..] == [];
    } else {
      PutBackStep(s, i);
      PutBackRest(s, i + 1);
    }
  }

  /** One turn of the postprocessing loop puts image `1 + i` back. */
  lemma PutBackStep(s: string, i: nat)
    requires Absent(ImgOpen, s) && i < |Pre(s, 1).mapping|
    ensures PostAll(Mixed(s, 1, 1 + i), Pre(s, 1).mapping[i..])
         == PostAll(Mixed(s, 1, 2 + i), Pre(s, 1).mapping[i + 1..])
  {
    var m := Pre(s, 1).mapping;
    assert m[i].0 == ImgToken(1 + i) by {
      PreMapping(s, 1);
      assert TaggedFrom(m, 1);
    }
    assert |Originals(s)| == |m| && m[i].1 == Originals(s)[i] by {
      PreOriginals(s, 1);
    }
    PutBackOne(s, 1, 1 + i, m[i].1);
    PostAllStep(Mixed(s, 1, 1 + i), m, i);
  }

  lemma PostAllStep(t: string, mapping: seq<(string, string)>, i: nat)
    requires i < |mapping|
    ensures PostAll(t, mapping[i..]) == PostAll(Replace(t, mapping[i].0, mapping[i].1), mapping[i + 1..])
  {
    assert mapping[i..][1..] == mapping[i + 1..];
  }

  /** Round trip (main.py:39-43, 60-61): postprocessing the preprocessed text with its own
      mapping gives back the original Markdown, provided the original holds no `[[img`
      that a tag could be confused with. */
  lemma RoundTrip(s: string)
    requires Absent(ImgOpen, s)
    ensures PostAll(Pre(s, 1).text, Pre(s, 1).mapping) == s
  {
    MixedAtStart(s, 1, 1);
    PutBackRest(s, 0);
    assert Pre(s, 1).mapping[0..] == Pre(s, 1).mapping;
  }
}
