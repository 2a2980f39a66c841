/** The summary-shaping heuristics of app/utils/file_processor.py: the
    length bounds handed to the summarizer for a requested depth, the
    display format suggested for a summary, and the split of a summary into
    titled sections. */
module FileProcessor {
  import opened PyText

  // ---------------------------------------------------------------------
  // _optimize_length_params
  // ---------------------------------------------------------------------

  /** One row of `depth_configs`. */
  datatype DepthConfig = DepthConfig(depth: real, maxRatio: real, minRatio: real)

  /** `depth_configs`, in insertion order; the ratios are exact rationals. */
  const DepthConfigs: seq<DepthConfig> := [
    DepthConfig(0.0, 0.05, 0.02),  // Minimal
    DepthConfig(1.0, 0.15, 0.05),  // Short
    DepthConfig(2.0, 0.30, 0.10),  // Medium
    DepthConfig(3.0, 0.40, 0.20),  // Standard
    DepthConfig(4.0, 0.60, 0.30)   // Comprehensive
  ]

  function Abs(x: real): real {
    if x < 0.0 then -x else x
  }

  /** Python's `min(rows, key=lambda x: abs(x - target))` over the depths of
      `rows`: the position of a depth nearest to `target`, the first such
      position on a tie. */
  function Closest(rows: seq<DepthConfig>, target: real): (i: nat)
    requires |rows| > 0
    ensures i < |rows|
    ensures forall k :: 0 <= k < |rows| ==> Abs(rows[i].depth - target) <= Abs(rows[k].depth - target)
    ensures forall k :: 0 <= k < i ==> Abs(rows[k].depth - target) > Abs(rows[i].depth - target)
  {
    if |rows| == 1 then 0
    else
      var j := 1 + Closest(rows[1..], target);
      if Abs(rows[0].depth - target) <= Abs(rows[j].depth - target) then 0 else j
  }

  /** The depth a requested depth is rounded to, written as thresholds: the
      midpoints between table depths go to the smaller depth. */
  function RoundedDepth(summaryDepth: real): real {
    if summaryDepth <= 0.5 then 0.0
    else if summaryDepth <= 1.5 then 1.0
    else if summaryDepth <= 2.5 then 2.0
    else if summaryDepth <= 3.5 then 3.0
    else 4.0
  }

  /** The table row `_optimize_length_params` uses for a requested depth. */
  function SelectedRow(summaryDepth: real): DepthConfig {
    DepthConfigs[Closest(DepthConfigs, summaryDepth)]
  }

  /** The depth of each row is its position. */
  lemma DepthIsPosition(m: int)
    requires 0 <= m < |DepthConfigs|
    ensures DepthConfigs[m].depth == m as real
  {
  }

  /** How far row `m` is from the requested depth `d`. */
  function Distance(m: int, d: real): real {
    Abs(m as real - d)
  }

  /** A row strictly nearer than every earlier row and at least as near as
      every later one is the row the search picks. */
  lemma ClosestAt(d: real, k: nat)
    requires k < |DepthConfigs|
    requires forall m :: 0 <= m < k ==> Distance(m, d) > Distance(k, d)
    requires forall m :: k < m < |DepthConfigs| ==> Distance(m, d) >= Distance(k, d)
    ensures Closest(DepthConfigs, d) == k
  {
    var i := Closest(DepthConfigs, d);
    DepthIsPosition(i);
    DepthIsPosition(k);
    assert Distance(i, d) == Abs(DepthConfigs[i].depth - d);
    assert Distance(k, d) == Abs(DepthConfigs[k].depth - d);
  }

  /** The nearest-depth search picks the row that the thresholds give; in
      particular a tie picks the smaller depth (0.5 selects depth 0.0). */
  lemma SelectedRowByThresholds(summaryDepth: real)
    ensures SelectedRow(summaryDepth).depth == RoundedDepth(summaryDepth)
    ensures Closest(DepthConfigs, summaryDepth) as real == RoundedDepth(summaryDepth)
  {
    var d := summaryDepth;
    if d <= 0.5 {
      ClosestAt(d, 0);
    } else if d <= 1.5 {
      ClosestAt(d, 1);
    } else if d <= 2.5 {
      ClosestAt(d, 2);
    } else if d <= 3.5 {
      ClosestAt(d, 3);
    } else {
      ClosestAt(d, 4);
    }
  }

  /** Python's `int(x)`: truncation toward zero, which drops the
      fractional part, rounding down from above zero and up from below. */
  function Trunc(x: real): (n: int)
    ensures x >= 0.0 ==> n as real <= x < n as real + 1.0
    ensures x < 0.0 ==> n as real - 1.0 < x <= n as real
  {
    if x >= 0.0 then x.Floor else -((-x).Floor)
  }

  /** Python's `int(n * ratio)` for an integer `n`, the branch chosen by the
      signs of the two factors instead of the sign of their product. */
  function TruncProduct(n: int, ratio: real): int {
    if (n >= 0) == (ratio >= 0.0) then (n as real * ratio).Floor
    else -((-(n as real) * ratio).Floor)
  }

  /** Choosing the branch by the factors' signs is the same as truncating
      the product. */
  lemma TruncProductIsTrunc(n: int, ratio: real)
    ensures TruncProduct(n, ratio) == Trunc(n as real * ratio)
  {
    var x := n as real;
    if n >= 0 && ratio >= 0.0 {
      ScaleLeft(x, 0.0, ratio);
    } else if n < 0 && ratio < 0.0 {
      ScaleLeft(-x, ratio, 0.0);
      assert -x * ratio <= 0.0;
    } else if n >= 0 {
      ScaleLeft(x, ratio, 0.0);
    } else {
      ScaleLeft(-x, 0.0, ratio);
      assert -x * ratio >= 0.0;
    }
  }

  /** The pair `(max_length, min_length)` that `_optimize_length_params`
      returns. */
  datatype LengthParams = LengthParams(maxLength: int, minLength: int)

  /** `_optimize_length_params(text_length, summary_depth)`: the nearest
      row's ratios applied to the text length and truncated. */
  function OptimizeLengthParams(textLength: int, summaryDepth: real): (p: LengthParams)
    ensures textLength >= 0 ==> 0 <= p.minLength <= p.maxLength <= textLength
  {
    var i := Closest(DepthConfigs, summaryDepth);
    var row := DepthConfigs[i];
    RowRatios(i);
    ScaledBounds(textLength, row.minRatio, row.maxRatio);
    LengthParams(TruncProduct(textLength, row.maxRatio), TruncProduct(textLength, row.minRatio))
  }

  /** Every row's ratios lie between 0 and 1, the lower one first. */
  lemma RowRatios(i: int)
    requires 0 <= i < |DepthConfigs|
    ensures 0.0 <= DepthConfigs[i].minRatio <= DepthConfigs[i].maxRatio <= 1.0
  {
  }

  /** A non-negative length times ratios between 0 and 1, truncated: the
      floors of the products, ordered like the ratios and at most the
      length. */
  lemma ScaledBounds(n: int, lo: real, hi: real)
    requires 0.0 <= lo <= hi <= 1.0
    ensures n >= 0 ==> && TruncProduct(n, lo) == (n as real * lo).Floor
                       && TruncProduct(n, hi) == (n as real * hi).Floor
                       && 0 <= TruncProduct(n, lo) <= TruncProduct(n, hi) <= n
  {
    if n >= 0 {
      ScaledFloor(n, lo);
      ScaledFloor(n, hi);
      TruncScaledMonotone(n, lo, hi);
    }
  }

  /** A non-negative length times a ratio between 0 and 1, truncated, is
      the floor of the product and lies between 0 and the length. */
  lemma ScaledFloor(n: int, r: real)
    requires n >= 0 && 0.0 <= r <= 1.0
    ensures TruncProduct(n, r) == (n as real * r).Floor
    ensures 0 <= TruncProduct(n, r) <= n
  {
    var x := n as real;
    ScaleLeft(x, 0.0, r);
    ScaleLeft(x, r, 1.0);
    assert 0.0 <= x * r <= x;
    FloorMonotone(0.0, x * r);
    FloorMonotone(x * r, x);
  }

  /** For a text length of zero or more, both bounds are the floors of the
      length times the ratios of the row whose depth the thresholds pick,
      and the lower bound does not exceed the upper one. */
  lemma LengthParamsBounds(textLength: int, summaryDepth: real)
    requires textLength >= 0
    ensures var p := OptimizeLengthParams(textLength, summaryDepth);
            var row := SelectedRow(summaryDepth);
            && row.depth == RoundedDepth(summaryDepth)
            && p.maxLength == (textLength as real * row.maxRatio).Floor
            && p.minLength == (textLength as real * row.minRatio).Floor
            && 0 <= p.minLength <= p.maxLength <= textLength
  {
    SelectedRowByThresholds(summaryDepth);
    LengthParamsFloors(textLength, summaryDepth);
  }

  /** For a text length of zero or more, `int()` of the products is their
      floor. */
  lemma LengthParamsFloors(textLength: int, summaryDepth: real)
    requires textLength >= 0
    ensures var p := OptimizeLengthParams(textLength, summaryDepth);
            var row := SelectedRow(summaryDepth);
            && p.maxLength == (textLength as real * row.maxRatio).Floor
            && p.minLength == (textLength as real * row.minRatio).Floor
  {
    var i := Closest(DepthConfigs, summaryDepth);
    var row := DepthConfigs[i];
    assert OptimizeLengthParams(textLength, summaryDepth)
        == LengthParams(TruncProduct(textLength, row.maxRatio), TruncProduct(textLength, row.minRatio));
    RowRatios(i);
    ScaledBounds(textLength, row.minRatio, row.maxRatio);
  }

  /** Both ratio columns grow down the table. */
  lemma RatiosIncrease(i: int, j: int)
    requires 0 <= i <= j < |DepthConfigs|
    ensures 0.0 <= DepthConfigs[i].maxRatio <= DepthConfigs[j].maxRatio
    ensures 0.0 <= DepthConfigs[i].minRatio <= DepthConfigs[j].minRatio
  {
  }

  lemma FloorMonotone(x: real, y: real)
    requires x <= y
    ensures x.Floor <= y.Floor
  {
  }

  lemma TruncScaledMonotone(n: int, a: real, b: real)
    requires n >= 0 && 0.0 <= a <= b
    ensures TruncProduct(n, a) <= TruncProduct(n, b)
  {
    ScaleLeft(n as real, a, b);
    FloorMonotone(n as real * a, n as real * b);
  }

  /** A deeper request never selects an earlier row. */
  lemma SelectedIndexMonotone(d1: real, d2: real)
    requires d1 <= d2
    ensures Closest(DepthConfigs, d1) <= Closest(DepthConfigs, d2)
  {
    SelectedRowByThresholds(d1);
    SelectedRowByThresholds(d2);
  }

  /** Asking for a deeper summary never shrinks either bound. */
  lemma LengthParamsMonotone(textLength: int, d1: real, d2: real)
    requires textLength >= 0
    requires d1 <= d2
    ensures OptimizeLengthParams(textLength, d1).maxLength <= OptimizeLengthParams(textLength, d2).maxLength
    ensures OptimizeLengthParams(textLength, d1).minLength <= OptimizeLengthParams(textLength, d2).minLength
  {
    SelectedRatiosMonotone(d1, d2);
    RowParamsMonotone(textLength, SelectedRow(d1), SelectedRow(d2));
  }

  /** The bounds computed from two rows, the second with ratios at least
      as large as the first. */
  lemma RowParamsMonotone(textLength: int, r1: DepthConfig, r2: DepthConfig)
    requires textLength >= 0
    requires 0.0 <= r1.maxRatio <= r2.maxRatio && 0.0 <= r1.minRatio <= r2.minRatio
    ensures TruncProduct(textLength, r1.maxRatio) <= TruncProduct(textLength, r2.maxRatio)
    ensures TruncProduct(textLength, r1.minRatio) <= TruncProduct(textLength, r2.minRatio)
  {
    TruncScaledMonotone(textLength, r1.maxRatio, r2.maxRatio);
    TruncScaledMonotone(textLength, r1.minRatio, r2.minRatio);
  }

  lemma SelectedRatiosMonotone(d1: real, d2: real)
    requires d1 <= d2
    ensures 0.0 <= SelectedRow(d1).maxRatio <= SelectedRow(d2).maxRatio
    ensures 0.0 <= SelectedRow(d1).minRatio <= SelectedRow(d2).minRatio
  {
    var i := Closest(DepthConfigs, d1);
    var j := Closest(DepthConfigs, d2);
    SelectedIndexMonotone(d1, d2);
    RatiosIncrease(i, j);
    assert SelectedRow(d1) == DepthConfigs[i] && SelectedRow(d2) == DepthConfigs[j];
  }

  // ---------------------------------------------------------------------
  // _suggest_display_format and _extract_sections
  // ---------------------------------------------------------------------

  /** A `{'title': ..., 'content': ...}` entry of a sectioned summary. */
  datatype Section = Section(title: string, content: string)

  /** The dictionary `_suggest_display_format` returns. Which entries it has
      depends on its type, so each type is a constructor. */
  datatype DisplayFormat =
    | Sections(sections: seq<Section>)
    | BulletPoints(points: seq<string>)
    | Paragraph
  {
    /** The `'type'` entry, which tells the three formats apart. */
    function Type(): (t: string)
      ensures (t == "sections") == Sections? && (t == "bullet_points") == BulletPoints?
      ensures (t == "paragraph") == Paragraph?
    {
      match this
      case Sections(_) => "sections"
      case BulletPoints(_) => "bullet_points"
      case Paragraph => "paragraph"
    }

    /** The `'image_query'` entry, fixed per type and different for each. */
    function ImageQuery(): (q: string)
      ensures (q == "education presentation") == Sections?
      ensures (q == "education notes") == BulletPoints?
      ensures (q == "education learning") == Paragraph?
    {
      match this
      case Sections(_) => "education presentation"
      case BulletPoints(_) => "education notes"
      case Paragraph => "education learning"
    }
  }

  /** The words whose presence in the summary suggests an ordered text. */
  const OrderKeywords: seq<string> := ["first", "second", "finally"]

  /** The words that make a sentence a section title. */
  const SectionKeywords: seq<string> := ["first", "second", "finally", "moreover", "furthermore"]

  /** Python's `any(k in s for k in keywords)`. */
  function ContainsAny(s: string, keywords: seq<string>): (b: bool)
    ensures b <==> exists k :: 0 <= k < |keywords| && Contains(s, keywords[k])
  {
    if keywords == [] then false
    else
      var b := Contains(s, keywords[0]) || ContainsAny(s, keywords[1..]);
      assert b ==> exists k :: 0 <= k < |keywords| && Contains(s, keywords[k]) by {
        if b && !Contains(s, keywords[0]) {
          var k :| 0 <= k < |keywords[1..]| && Contains(s, keywords[1..][k]);
          assert Contains(s, keywords[k + 1]);
        }
      }
      b
  }

  /** A sentence that `_extract_sections` turns into a section title. */
  function IsHeading(sentence: string): (heading: bool)
    ensures heading <==> exists k :: 0 <= k < |SectionKeywords| && Contains(Lower(sentence), SectionKeywords[k])
  {
    ContainsAny(Lower(sentence), SectionKeywords)
  }

  /** The section collected so far, if it has any content. */
  function Flush(current: Section): seq<Section> {
    if current.content != "" then [current] else []
  }

  /** What the loop of `_extract_sections` appends while it goes through
      `sentences`, with `current` the section being collected: a heading
      closes the current section (kept only with content) and opens one
      titled with the stripped heading; any other sentence is added to the
      current content followed by the `'.'` that `split` removed. */
  function SectionsFrom(sentences: seq<string>, current: Section): (sections: seq<Section>)
    ensures forall i :: 0 <= i < |sections| ==> sections[i].content != ""
  {
    if sentences == [] then Flush(current)
    else if IsHeading(sentences[0]) then
      Flush(current) + SectionsFrom(sentences[1..], Section(Strip(sentences[0]), ""))
    else
      SectionsFrom(sentences[1..], current.(content := current.content + sentences[0] + "."))
  }

  /** What `_extract_sections(text)` returns: sections with content, which
      together hold exactly the non-heading pieces of the text, each with
      its `'.'`, and at most one more of them than there are headings. */
  function SectionsOf(text: string): (sections: seq<Section>)
    ensures forall i :: 0 <= i < |sections| ==> sections[i].content != ""
    ensures ContentText(sections) == BodyText(Split(text, '.'))
    ensures |sections| <= HeadingCount(Split(text, '.')) + 1
  {
    var sentences := Split(text, '.');
    var overview := Section("Overview", "");
    SectionsKeepBody(sentences, overview);
    SectionsCount(sentences, overview);
    assert overview.content + BodyText(sentences) == BodyText(sentences);
    SectionsFrom(sentences, overview)
  }

  /** `_extract_sections(text)`. */
  method ExtractSections(text: string) returns (sections: seq<Section>)
    ensures sections == SectionsOf(text)
    ensures forall i :: 0 <= i < |sections| ==> sections[i].content != ""
  {
    var sentences := Split(text, '.');
    sections := [];
    var current := Section("Overview", "");
    assert sentences[0..] == sentences;
    for i := 0 to |sentences|
      invariant sections + SectionsFrom(sentences[i..], current) == SectionsOf(text)
    {
      var sentence := sentences[i];
      assert sentences[i..] == [sentence] + sentences[i + 1..];
      if IsHeading(sentence) {
        HeadingCons(sentence, sentences[i + 1..], current);
        ConcatAssoc(sections, Flush(current), SectionsFrom(sentences[i + 1..], Section(Strip(sentence), "")));
        if current.content != "" {
          sections := sections + [current];
        } else {
          assert sections + Flush(current) == sections;
        }
        current := Section(Strip(sentence), "");
      } else {
        BodyCons(sentence, sentences[i + 1..], current);
        current := current.(content := current.content + sentence + ".");
      }
    }
    assert sentences[|sentences|..] == [];
    if current.content != "" {
      sections := sections + [current];
    }
  }

  /** The contents of the sections, one after the other. */
  function ContentText(sections: seq<Section>): string {
    if sections == [] then "" else sections[0].content + ContentText(sections[1..])
  }

  /** The sentences that are not headings, each followed by `'.'`, one
      after the other. */
  function BodyText(sentences: seq<string>): string {
    if sentences == [] then ""
    else (if IsHeading(sentences[0]) then "" else sentences[0] + ".") + BodyText(sentences[1..])
  }

  /** Number of headings among `sentences`. */
  function HeadingCount(sentences: seq<string>): nat {
    if sentences == [] then 0
    else (if IsHeading(sentences[0]) then 1 else 0) + HeadingCount(sentences[1..])
  }

  lemma ContentTextAppend(a: seq<Section>, b: seq<Section>)
    ensures ContentText(a + b) == ContentText(a) + ContentText(b)
  {
    if a == [] {
      assert a + b == b;
    } else {
      assert (a + b)[0] == a[0];
      assert (a + b)[1..] == a[1..] + b;
      ContentTextAppend(a[1..], b);
    }
  }

  /** No text is lost or invented: the contents, one after the other, are
      the current content followed by every non-heading sentence with its
      `'.'`, in order; headings never reach a content. */
  lemma {:induction false} SectionsKeepBody(sentences: seq<string>, current: Section)
    ensures ContentText(SectionsFrom(sentences, current)) == current.content + BodyText(sentences)
  {
    if sentences == [] {
      assert ContentText(Flush(current)) == current.content;
    } else if IsHeading(sentences[0]) {
      var next := Section(Strip(sentences[0]), "");
      SectionsKeepBody(sentences[1..], next);
      ContentTextAppend(Flush(current), SectionsFrom(sentences[1..], next));
      assert ContentText(Flush(current)) == current.content;
      assert BodyText(sentences) == BodyText(sentences[1..]);
    } else {
      var next := current.(content := current.content + sentences[0] + ".");
      SectionsKeepBody(sentences[1..], next);
      assert BodyText(sentences) == sentences[0] + "." + BodyText(sentences[1..]);
    }
  }

  /** A heading splits the work in two: the sections of the pieces before
      it (the section open at the heading closed as at the end), then the
      sections of the pieces after it, starting with the section the
      heading titles. */
  lemma {:induction false} SectionsAtHeading(pre: seq<string>, h: string, post: seq<string>, current: Section)
    requires IsHeading(h)
    ensures SectionsFrom(pre + [h] + post, current)
         == SectionsFrom(pre, current) + SectionsFrom(post, Section(Strip(h), ""))
    decreases |pre|
  {
    var titled := Section(Strip(h), "");
    var all := pre + [h] + post;
    if pre == [] {
      assert all == [h] + post;
      HeadingCons(h, post, current);
    } else {
      var x, rest := pre[0], pre[1..];
      var tail := rest + [h] + post;
      assert all == [x] + tail by {
        assert pre == [x] + rest;
      }
      assert pre == [x] + rest;
      if IsHeading(x) {
        var next := Section(Strip(x), "");
        var closed := Flush(current);
        assert SectionsFrom(all, current) == closed + SectionsFrom(tail, next) by {
          HeadingCons(x, tail, current);
        }
        assert SectionsFrom(pre, current) == closed + SectionsFrom(rest, next) by {
          HeadingCons(x, rest, current);
        }
        SectionsAtHeading(rest, h, post, next);
        ConcatAssoc(closed, SectionsFrom(rest, next), SectionsFrom(post, titled));
      } else {
        var next := current.(content := current.content + x + ".");
        assert SectionsFrom(all, current) == SectionsFrom(tail, next) by {
          BodyCons(x, tail, current);
        }
        assert SectionsFrom(pre, current) == SectionsFrom(rest, next) by {
          BodyCons(x, rest, current);
        }
        SectionsAtHeading(rest, h, post, next);
      }
    }
  }

  lemma ConcatAssoc(a: seq<Section>, b: seq<Section>, c: seq<Section>)
    ensures a + (b + c) == (a + b) + c
  {
  }

  /** A heading first closes the open section and opens one it titles. */
  lemma HeadingCons(x: string, tail: seq<string>, current: Section)
    requires IsHeading(x)
    ensures SectionsFrom([x] + tail, current) == Flush(current) + SectionsFrom(tail, Section(Strip(x), ""))
  {
    assert ([x] + tail)[0] == x && ([x] + tail)[1..] == tail;
  }

  /** Any other piece first is added to the open section. */
  lemma BodyCons(x: string, tail: seq<string>, current: Section)
    requires !IsHeading(x)
    ensures SectionsFrom([x] + tail, current) == SectionsFrom(tail, current.(content := current.content + x + "."))
  {
    assert ([x] + tail)[0] == x && ([x] + tail)[1..] == tail;
  }

  /** A run of pieces without a heading all go into the open section, each
      followed by `'.'`; it is returned only if it has content. */
  lemma {:induction false} SectionsOfBody(body: seq<string>, current: Section)
    requires forall i :: 0 <= i < |body| ==> !IsHeading(body[i])
    ensures SectionsFrom(body, current) == Flush(current.(content := current.content + BodyText(body)))
    decreases |body|
  {
    if body == [] {
      assert current.content + BodyText(body) == current.content;
      assert current.(content := current.content) == current;
    } else {
      var next := current.(content := current.content + body[0] + ".");
      assert !IsHeading(body[0]);
      assert forall i :: 0 <= i < |body[1..]| ==> body[1..][i] == body[i + 1];
      SectionsOfBody(body[1..], next);
      assert BodyText(body) == body[0] + "." + BodyText(body[1..]);
      assert next.content + BodyText(body[1..]) == current.content + BodyText(body);
    }
  }

  /** The shape of `"a.first.b"`: a piece, a heading, a piece give two
      sections, each title with the content that follows it. */
  lemma TwoSections(a: string, h: string, b: string)
    requires !IsHeading(a) && IsHeading(h) && !IsHeading(b)
    ensures SectionsFrom([a, h, b], Section("Overview", ""))
         == [Section("Overview", a + "."), Section(Strip(h), b + ".")]
  {
    var overview := Section("Overview", "");
    var titled := Section(Strip(h), "");
    var pieces: seq<string> := [a, h, b];
    assert pieces == [a] + [h] + [b] by {
      var joined: seq<string> := [a] + [h] + [b];
      assert |joined| == 3 && joined[0] == a && joined[1] == h && joined[2] == b;
    }
    assert SectionsFrom(pieces, overview) == SectionsFrom([a], overview) + SectionsFrom([b], titled) by {
      SectionsAtHeading([a], h, [b], overview);
    }
    assert SectionsFrom([a], overview) == [Section("Overview", a + ".")] by {
      SectionsOfBody([a], overview);
      assert [a][1..] == [];
      assert "" + BodyText([a]) == a + ".";
    }
    assert SectionsFrom([b], titled) == [Section(Strip(h), b + ".")] by {
      SectionsOfBody([b], titled);
      assert [b][1..] == [];
      assert "" + BodyText([b]) == b + ".";
    }
  }

  /** Every heading closes at most one section, so there are at most one
      more sections than headings. */
  lemma {:induction false} SectionsCount(sentences: seq<string>, current: Section)
    ensures |SectionsFrom(sentences, current)| <= HeadingCount(sentences) + 1
  {
    if sentences == [] {
    } else if IsHeading(sentences[0]) {
      SectionsCount(sentences[1..], Section(Strip(sentences[0]), ""));
    } else {
      SectionsCount(sentences[1..], current.(content := current.content + sentences[0] + "."));
    }
  }

  /** `title` is a stripped heading among `sentences`. */
  ghost predicate HeadingTitle(sentences: seq<string>, title: string) {
    exists j :: 0 <= j < |sentences| && IsHeading(sentences[j]) && title == Strip(sentences[j])
  }

  lemma HeadingTitleFirst(sentences: seq<string>)
    requires sentences != [] && IsHeading(sentences[0])
    ensures HeadingTitle(sentences, Strip(sentences[0]))
  {
  }

  lemma HeadingTitleTail(sentences: seq<string>, title: string)
    requires sentences != [] && HeadingTitle(sentences[1..], title)
    ensures HeadingTitle(sentences, title)
  {
    var j :| 0 <= j < |sentences[1..]| && IsHeading(sentences[1..][j]) && title == Strip(sentences[1..][j]);
    assert sentences[1..][j] == sentences[j + 1];
  }

  /** Every title is the title of the section being collected at the start
      or a stripped heading. */
  lemma {:induction false} SectionTitles(sentences: seq<string>, current: Section)
    ensures forall s :: s in SectionsFrom(sentences, current) ==>
      s.title == current.title || HeadingTitle(sentences, s.title)
  {
    if sentences == [] {
    } else if IsHeading(sentences[0]) {
      var next := Section(Strip(sentences[0]), "");
      SectionTitles(sentences[1..], next);
      HeadingTitleFirst(sentences);
      forall s | s in SectionsFrom(sentences[1..], next)
        ensures HeadingTitle(sentences, s.title)
      {
        if s.title != next.title {
          HeadingTitleTail(sentences, s.title);
        }
      }
    } else {
      var next := current.(content := current.content + sentences[0] + ".");
      SectionTitles(sentences[1..], next);
      forall s | s in SectionsFrom(sentences[1..], next)
        ensures s.title == current.title || HeadingTitle(sentences, s.title)
      {
        if s.title != current.title {
          HeadingTitleTail(sentences, s.title);
        }
      }
    }
  }

  /** When the section being collected already has content, or the next
      sentence gives it some, it is the first section returned. */
  lemma {:induction false} FirstSectionKeepsTitle(sentences: seq<string>, current: Section)
    requires current.content != "" || (sentences != [] && !IsHeading(sentences[0]))
    ensures SectionsFrom(sentences, current) != []
    ensures SectionsFrom(sentences, current)[0].title == current.title
  {
    if sentences != [] && !IsHeading(sentences[0]) {
      var next := current.(content := current.content + sentences[0] + ".");
      FirstSectionKeepsTitle(sentences[1..], next);
    }
  }

  /** Sections of a whole text: the first one is titled "Overview" unless
      the first sentence is a heading, in which case every title is a
      stripped heading. */
  lemma OverviewFirst(text: string)
    ensures var sentences := Split(text, '.');
            var sections := SectionsOf(text);
            && (!IsHeading(sentences[0]) ==> sections != [] && sections[0].title == "Overview")
            && (IsHeading(sentences[0]) ==> forall s :: s in sections ==> HeadingTitle(sentences, s.title))
  {
    var sentences := Split(text, '.');
    var overview := Section("Overview", "");
    if !IsHeading(sentences[0]) {
      FirstSectionKeepsTitle(sentences, overview);
    } else {
      var next := Section(Strip(sentences[0]), "");
      assert SectionsOf(text) == SectionsFrom(sentences[1..], next);
      SectionTitles(sentences[1..], next);
      HeadingTitleFirst(sentences);
      forall s | s in SectionsOf(text)
        ensures HeadingTitle(sentences, s.title)
      {
        if s.title != next.title {
          HeadingTitleTail(sentences, s.title);
        }
      }
    }
  }

  /** The stripped pieces of `pieces`, each of them. */
  function StripAll(pieces: seq<string>): (stripped: seq<string>)
    ensures |stripped| == |pieces| && forall k :: 0 <= k < |pieces| ==> stripped[k] == Strip(pieces[k])
  {
    if pieces == [] then [] else [Strip(pieces[0])] + StripAll(pieces[1..])
  }

  /** Number of pieces that are not all whitespace. */
  function NonBlankCount(pieces: seq<string>): nat {
    if pieces == [] then 0 else (if Strip(pieces[0]) != "" then 1 else 0) + NonBlankCount(pieces[1..])
  }

  /** What the points of `sentences` look like: one per non-blank piece,
      each non-empty and already stripped, and together the characters of
      the stripped pieces in order. Which piece each point is, `Picks`
      says. */
  ghost predicate PointsFrom(sentences: seq<string>, points: seq<string>) {
    && |points| == NonBlankCount(sentences)
    && (forall i :: 0 <= i < |points| ==> points[i] != "" && Trimmed(points[i]))
    && Concat(points) == Concat(StripAll(sentences))
  }

  /** The points of `sentences[1..]` preceded by the stripped first piece,
      unless it is blank. */
  function PointsCons(p: string, rest: seq<string>): seq<string> {
    if p != "" then [p] + rest else rest
  }

  lemma PointsConsFrom(sentences: seq<string>, rest: seq<string>)
    requires sentences != [] && PointsFrom(sentences[1..], rest)
    ensures PointsFrom(sentences, PointsCons(Strip(sentences[0]), rest))
  {
    var p := Strip(sentences[0]);
    assert Concat(StripAll(sentences)) == p + Concat(StripAll(sentences[1..]));
    if p != "" {
      assert ([p] + rest)[1..] == rest;
    }
  }

  /** `[s.strip() for s in sentences if s.strip()]`: the points of a
      bulleted summary. */
  function PointsOf(sentences: seq<string>): (points: seq<string>)
    ensures PointsFrom(sentences, points)
  {
    if sentences == [] then []
    else
      var rest := PointsOf(sentences[1..]);
      PointsConsFrom(sentences, rest);
      PointsCons(Strip(sentences[0]), rest)
  }

  /** `points[j]` is the entry of `pieces` at position `idx[j]`. */
  ghost predicate PicksAt(pieces: seq<string>, points: seq<string>, idx: seq<int>) {
    && |idx| == |points|
    && (forall j :: 0 <= j < |idx| ==> 0 <= idx[j] < |pieces| && points[j] == pieces[idx[j]])
  }

  ghost predicate Increasing(idx: seq<int>) {
    forall j, j' :: 0 <= j < j' < |idx| ==> idx[j] < idx[j']
  }

  /** Every non-empty entry of `pieces` has its position in `idx`. */
  ghost predicate Covers(pieces: seq<string>, idx: seq<int>) {
    forall k :: 0 <= k < |pieces| && pieces[k] != "" ==> k in idx
  }

  /** `points` are the non-empty entries of `pieces` in their order:
      `points[j]` is the entry at position `idx[j]`, the positions increase
      and every non-empty entry has one. */
  ghost predicate Picks(pieces: seq<string>, points: seq<string>, idx: seq<int>) {
    PicksAt(pieces, points, idx) && Increasing(idx) && Covers(pieces, idx)
  }

  /** Every position, one further on. */
  function Shifted(idx: seq<int>): (later: seq<int>)
    ensures |later| == |idx| && forall j :: 0 <= j < |idx| ==> later[j] == idx[j] + 1
  {
    seq(|idx|, j requires 0 <= j < |idx| => idx[j] + 1)
  }

  /** The positions picked in `[p] + rest`, from those picked in `rest`. */
  function PositionsCons(p: string, idx: seq<int>): seq<int> {
    if p != "" then [0] + Shifted(idx) else Shifted(idx)
  }

  lemma PicksCons(p: string, rest: seq<string>, points: seq<string>, idx: seq<int>)
    requires Picks(rest, points, idx)
    ensures Picks([p] + rest, PointsCons(p, points), PositionsCons(p, idx))
  {
    ShiftedAt(p, rest, points, idx);
    ShiftedIncreasing(idx);
    ShiftedCovers(p, rest, idx);
    if p != "" {
      TakeAt(p, rest, points, idx);
      TakeIncreasing(idx);
      assert Covers([p] + rest, [0] + Shifted(idx)) by {
        TakeCovers(p, rest, idx);
      }
    }
  }

  lemma ShiftedAt(p: string, rest: seq<string>, points: seq<string>, idx: seq<int>)
    requires PicksAt(rest, points, idx)
    ensures PicksAt([p] + rest, points, Shifted(idx))
  {
    var pieces := [p] + rest;
    forall j | 0 <= j < |idx|
      ensures pieces[idx[j] + 1] == rest[idx[j]]
    {
    }
  }

  lemma TakeAt(p: string, rest: seq<string>, points: seq<string>, idx: seq<int>)
    requires PicksAt([p] + rest, points, Shifted(idx))
    ensures PicksAt([p] + rest, [p] + points, [0] + Shifted(idx))
  {
    var later := Shifted(idx);
    assert forall j :: 0 < j < |later| + 1 ==> ([0] + later)[j] == later[j - 1] && ([p] + points)[j] == points[j - 1];
  }

  lemma ShiftedIncreasing(idx: seq<int>)
    requires Increasing(idx)
    ensures Increasing(Shifted(idx))
  {
  }

  lemma TakeIncreasing(idx: seq<int>)
    requires Increasing(Shifted(idx)) && forall j :: 0 <= j < |idx| ==> 0 <= idx[j]
    ensures Increasing([0] + Shifted(idx))
  {
    var later := Shifted(idx);
    forall j, j' | 0 <= j < j' < |later| + 1
      ensures ([0] + later)[j] < ([0] + later)[j']
    {
      if j > 0 {
        assert later[j - 1] < later[j' - 1];
      }
    }
  }

  /** Every non-empty entry after the first keeps its position, one on. */
  lemma ShiftedCovers(p: string, rest: seq<string>, idx: seq<int>)
    requires Covers(rest, idx)
    ensures forall k :: 0 < k < |rest| + 1 && ([p] + rest)[k] != "" ==> k in Shifted(idx)
  {
    var pieces := [p] + rest;
    var later := Shifted(idx);
    forall k | 0 < k < |pieces| && pieces[k] != ""
      ensures k in later
    {
      assert pieces[k] == rest[k - 1];
      var j :| 0 <= j < |idx| && idx[j] == k - 1;
      assert later[j] == k;
    }
  }

  lemma TakeCovers(p: string, rest: seq<string>, idx: seq<int>)
    requires forall k :: 0 < k < |rest| + 1 && ([p] + rest)[k] != "" ==> k in Shifted(idx)
    ensures Covers([p] + rest, [0] + Shifted(idx))
  {
  }

  /** The points are the non-blank pieces, stripped, and in their order:
      the j-th point is the stripped j-th non-blank piece. */
  lemma {:induction false} PointsArePieces(sentences: seq<string>)
    ensures exists idx :: Picks(StripAll(sentences), PointsOf(sentences), idx)
  {
    if sentences == [] {
      assert StripAll(sentences) == [] && PointsOf(sentences) == [];
      assert Picks([], [], []);
    } else {
      var rest := sentences[1..];
      var p := Strip(sentences[0]);
      PointsArePieces(rest);
      var idx :| Picks(StripAll(rest), PointsOf(rest), idx);
      PicksCons(p, StripAll(rest), PointsOf(rest), idx);
      assert StripAll(sentences) == [p] + StripAll(rest);
      assert PointsOf(sentences) == PointsCons(p, PointsOf(rest));
      assert Picks(StripAll(sentences), PointsOf(sentences), PositionsCons(p, idx));
    }
  }

  /** The points of two lists of pieces, one after the other, are the
      points of the lists joined. */
  lemma {:induction false} PointsOfAppend(a: seq<string>, b: seq<string>)
    ensures PointsOf(a + b) == PointsOf(a) + PointsOf(b)
  {
    if a == [] {
      assert a + b == b;
    } else {
      assert (a + b)[0] == a[0];
      assert (a + b)[1..] == a[1..] + b;
      PointsOfAppend(a[1..], b);
    }
  }

  /** The points of a summary split at `'.'` contain no `'.'`. */
  lemma {:induction false} PointsHaveNoDot(sentences: seq<string>)
    requires forall i :: 0 <= i < |sentences| ==> '.' !in sentences[i]
    ensures forall i :: 0 <= i < |PointsOf(sentences)| ==> '.' !in PointsOf(sentences)[i]
  {
    if sentences != [] {
      StripSubset(sentences[0], '.');
      assert forall i :: 0 <= i < |sentences[1..]| ==> sentences[1..][i] == sentences[i + 1];
      PointsHaveNoDot(sentences[1..]);
    }
  }

  /** Python's `len(words) / len(sentences) < 10` on exact rationals is the
      integer comparison `len(words) < 10 * len(sentences)`. */
  lemma RatioBelowTen(words: nat, sentences: nat)
    requires sentences > 0
    ensures (words as real / sentences as real < 10.0) <==> words < 10 * sentences
  {
    var q, s := words as real / sentences as real, sentences as real;
    assert q * s == words as real;
    if q < 10.0 {
      ScaleStrict(q, 10.0, s);
    } else {
      ScaleLeft(s, 10.0, q);
    }
  }

  lemma ScaleStrict(a: real, b: real, c: real)
    requires a < b && c > 0.0
    ensures a * c < b * c
  {
  }

  lemma ScaleLeft(c: real, a: real, b: real)
    requires a <= b && c >= 0.0
    ensures c * a <= c * b
  {
  }

  /** `_suggest_display_format(text)`. */
  function SuggestDisplayFormat(text: string): (f: DisplayFormat)
    ensures var sentences := Split(text, '.');
            var ordered := |sentences| > 10 && ContainsAny(Lower(text), OrderKeywords);
            && (f.Sections? <==> ordered)
            && (f.BulletPoints? <==> !ordered && (|sentences| < 5 || |Words(text)| < 10 * |sentences|))
            && (f.Paragraph? <==> !ordered && |sentences| >= 5 && |Words(text)| >= 10 * |sentences|)
            && (f.Sections? ==> f.sections == SectionsOf(text))
            && (f.BulletPoints? ==> f.points == PointsOf(sentences))
            && f.Type() == (if ordered then "sections" else if f.BulletPoints? then "bullet_points" else "paragraph")
            && f.ImageQuery() == (if ordered then "education presentation"
                                  else if f.BulletPoints? then "education notes" else "education learning")
  {
    var words := Words(text);
    var sentences := Split(text, '.');
    RatioBelowTen(|words|, |sentences|);
    if |sentences| > 10 && ContainsAny(Lower(text), OrderKeywords) then
      Sections(SectionsOf(text))
    else if |sentences| < 5 || (|words| as real / |sentences| as real) < 10.0 then
      BulletPoints(PointsOf(sentences))
    else
      Paragraph
  }

  /** The bullet points of a suggested format are non-empty, stripped,
      free of `'.'`, one per non-blank sentence, and together hold exactly
      the characters of the stripped sentences; the j-th point is the j-th
      non-blank sentence, stripped. */
  lemma BulletPointsShape(text: string)
    requires SuggestDisplayFormat(text).BulletPoints?
    ensures var sentences := Split(text, '.');
            var points := SuggestDisplayFormat(text).points;
            && |points| == NonBlankCount(sentences) <= |sentences|
            && (forall i :: 0 <= i < |points| ==> points[i] != "" && Trimmed(points[i]) && '.' !in points[i])
            && Concat(points) == Concat(StripAll(sentences))
            && exists idx :: Picks(StripAll(sentences), points, idx)
  {
    var sentences := Split(text, '.');
    PointsHaveNoDot(sentences);
    NonBlankAtMost(sentences);
    PointsArePieces(sentences);
  }

  lemma {:induction false} NonBlankAtMost(pieces: seq<string>)
    ensures NonBlankCount(pieces) <= |pieces|
  {
    if pieces != [] { NonBlankAtMost(pieces[1..]); }
  }

  lemma IntroIsNoHeading()
    ensures !IsHeading("Intro")
  {
    var l := Lower("Intro");
    assert l == "intro";
    assert l[..5][0] == 'i' && "first"[0] == 'f';
    assert l[1..] == "ntro";
    assert !Contains(l[1..], "first");
    assert !Contains(l, "first");
  }

  lemma JoinIntro()
    ensures Join(["Intro", ""], '.') == "Intro."
  {
    var pieces: seq<string> := ["Intro", ""];
    assert pieces[1..] == [""];
    assert Join(pieces[1..], '.') == "";
    assert "Intro" + ['.'] + "" == "Intro.";
  }

  lemma SplitIntro()
    ensures Split("Intro.", '.') == ["Intro", ""]
  {
    JoinIntro();
    SplitJoin(["Intro", ""], '.');
  }

  lemma IntroCollected()
    ensures SectionsFrom(["Intro", ""], Section("Overview", ""))
         == SectionsFrom([""], Section("Overview", "Intro."))
  {
    IntroIsNoHeading();
    var pieces: seq<string> := ["Intro", ""];
    assert pieces[0] == "Intro" && pieces[1..] == [""];
    assert "" + "Intro" + "." == "Intro.";
  }

  lemma EmptyPieceCollected()
    ensures SectionsFrom([""], Section("Overview", "Intro.")) == [Section("Overview", "Intro..")]
  {
    assert !IsHeading("");
    var last: seq<string> := [""];
    assert last[0] == "" && last[1..] == [];
    assert "Intro." + "" + "." == "Intro..";
  }

  /** A summary that ends with its only `'.'`: the empty piece after it
      adds a second `'.'` to the content. */
  lemma TrailingPeriodScenario()
    ensures SectionsOf("Intro.") == [Section("Overview", "Intro..")]
  {
    SplitIntro();
    IntroCollected();
    EmptyPieceCollected();
  }
}
