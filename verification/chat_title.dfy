/** Title derivation for a conversation (script.js line 225): the text with
    every `<[^>]+>` span removed, cut to its first 35 characters, followed
    by `...` when the text as stored is longer than 35 characters. */
module ChatTitle {

  /** `substring(0, 35)` keeps at most this many characters. */
  const TitleWidth: nat := 35

  const Ellipsis := "..."

  /** Index of the first `>` in `s` at or after `from`; `|s|` when there is
      none. */
  function FindClose(s: string, from: nat): (k: nat)
    requires from <= |s|
    ensures from <= k <= |s|
    ensures forall j :: from <= j < k ==> s[j] != '>'
    ensures k < |s| ==> s[k] == '>'
    decreases |s| - from
  {
    if from == |s| then from
    else if s[from] == '>' then from
    else FindClose(s, from + 1)
  }

  /** The pattern `<[^>]+>` matches at the start of `s`: a `<`, at least
      one character other than `>`, then a `>`. The class `[^>]` admits
      line breaks and further `<`, so the match ends at the first `>`. */
  predicate StartsWithTag(s: string) {
    |s| >= 2 && s[0] == '<' && s[1] != '>' && FindClose(s, 1) < |s|
  }

  /** No match of `<[^>]+>` anywhere in `s`: no `<` that is followed by a
      character other than `>` has a `>` anywhere after it. */
  predicate TagFree(s: string) {
    forall i, k :: 0 <= i < k < |s| && s[i] == '<' && s[i + 1] != '>' ==> s[k] != '>'
  }

  /** `s.replace(/<[^>]+>/g, '')`: the global replace scans left to right,
      removes each match and resumes after it. */
  function StripTags(s: string): (r: string)
    ensures |r| <= |s|
    ensures forall x :: x in r ==> x in s
    decreases |s|
  {
    if s == [] then []
    else if StartsWithTag(s) then
      var rest := s[FindClose(s, 1) + 1..];
      assert forall x :: x in rest ==> x in s;
      StripTags(rest)
    else [s[0]] + StripTags(s[1..])
  }

  /** Prepending a character to a tag-free text keeps it tag-free unless
      the character opens a tag that the text closes. */
  lemma TagFreeCons(c: char, t: string)
    requires TagFree(t)
    requires c == '<' && t != [] && t[0] != '>' ==> '>' !in t
    ensures TagFree([c] + t)
  {
    var s := [c] + t;
    forall i, k | 0 <= i < k < |s| && s[i] == '<' && s[i + 1] != '>'
      ensures s[k] != '>'
    {
      if i == 0 {
        assert s[k] == t[k - 1];
      } else {
        assert s[i] == t[i - 1] && s[i + 1] == t[i] && s[k] == t[k - 1];
      }
    }
  }

  /** After stripping, no `<[^>]+>` match is left: removing a tag never
      joins the pieces around it into a new one. */
  lemma {:induction false} StripTagsTagFree(s: string)
    ensures TagFree(StripTags(s))
    decreases |s|
  {
    if s == [] {
    } else if StartsWithTag(s) {
      StripTagsTagFree(s[FindClose(s, 1) + 1..]);
    } else {
      var t := s[1..];
      var r := StripTags(t);
      StripTagsTagFree(t);
      if s[0] == '<' && r != [] && r[0] != '>' {
        assert t != [] && t[0] != '>';
        assert FindClose(s, 1) == |s|;
        assert '>' !in t by {
          forall j | 0 <= j < |t| ensures t[j] != '>' {
            assert t[j] == s[j + 1];
          }
        }
      }
      TagFreeCons(s[0], r);
    }
  }

  /** A tag-free text is left unchanged by stripping. */
  lemma {:induction false} StripTagsFixesTagFree(s: string)
    requires TagFree(s)
    ensures StripTags(s) == s
    decreases |s|
  {
    if s != [] {
      var t := s[1..];
      assert TagFree(t) by {
        forall i, k | 0 <= i < k < |t| && t[i] == '<' && t[i + 1] != '>'
          ensures t[k] != '>'
        {
          assert s[i + 1] == t[i] && s[i + 2] == t[i + 1] && s[k + 1] == t[k];
        }
      }
      StripTagsFixesTagFree(t);
    }
  }

  /** Stripping leaves a text unchanged exactly when it holds no tag. */
  lemma StripTagsUnchangedIff(s: string)
    ensures StripTags(s) == s <==> TagFree(s)
  {
    StripTagsTagFree(s);
    if TagFree(s) {
      StripTagsFixesTagFree(s);
    }
  }

  /** Stripping twice is stripping once. */
  lemma StripTagsIdempotent(s: string)
    ensures StripTags(StripTags(s)) == StripTags(s)
  {
    StripTagsTagFree(s);
    StripTagsFixesTagFree(StripTags(s));
  }

  /** A leading tag `<body>` is removed entirely. */
  lemma StripLeadingTag(body: string, s: string)
    requires body != [] && '>' !in body
    ensures StripTags("<" + body + ">" + s) == StripTags(s)
  {
    var t := "<" + body + ">" + s;
    var n := |body| + 1;
    assert t[n] == '>';
    assert forall j :: 1 <= j < n ==> t[j] == body[j - 1];
    var k := FindClose(t, 1);
    assert k == n;
    assert t[1] == body[0];
    assert StartsWithTag(t);
    assert t[n + 1..] == s;
  }

  /** `substring(0, n)`: the first `n` characters, or all of them. */
  function Take(s: string, n: nat): (r: string)
    ensures |r| <= n && r <= s
    ensures |s| <= n ==> r == s
    ensures |s| >= n ==> |r| == n
  {
    if |s| <= n then s else s[..n]
  }

  /** The title given to a conversation by its first user message. */
  function DeriveTitle(text: string): (title: string)
    ensures |title| <= TitleWidth + |Ellipsis|
    ensures |text| <= TitleWidth ==> title == StripTags(text)
    ensures |text| > TitleWidth ==>
              |title| >= |Ellipsis| && title[|title| - |Ellipsis|..] == Ellipsis
              && title[..|title| - |Ellipsis|] <= StripTags(text)
              && |title| - |Ellipsis| == if |StripTags(text)| < TitleWidth then |StripTags(text)| else TitleWidth
  {
    var shown := Take(StripTags(text), TitleWidth);
    if |text| > TitleWidth then
      assert (shown + Ellipsis)[..|shown|] == shown;
      shown + Ellipsis
    else shown
  }

  /** How a title is put together; used to compute the title of a given
      message. */
  lemma DeriveTitleParts(text: string)
    ensures DeriveTitle(text)
            == Take(StripTags(text), TitleWidth) + (if |text| > TitleWidth then Ellipsis else "")
  {
  }

  /** Any prefix of a tag-free text is tag-free. */
  lemma TagFreePrefix(s: string, n: nat)
    requires TagFree(s) && n <= |s|
    ensures TagFree(s[..n])
  {
    var p := s[..n];
    forall i, k | 0 <= i < k < |p| && p[i] == '<' && p[i + 1] != '>'
      ensures p[k] != '>'
    {
      assert p[i] == s[i] && p[i + 1] == s[i + 1] && p[k] == s[k];
    }
  }

  /** The title carries no markup of the form `<[^>]+>`. */
  lemma DeriveTitleTagFree(text: string)
    ensures TagFree(DeriveTitle(text))
  {
    var stripped := StripTags(text);
    StripTagsTagFree(text);
    var shown := Take(stripped, TitleWidth);
    TagFreePrefix(stripped, |shown|);
    assert shown == stripped[..|shown|];
    if |text| > TitleWidth {
      var t := shown + Ellipsis;
      forall i, k | 0 <= i < k < |t| && t[i] == '<' && t[i + 1] != '>'
        ensures t[k] != '>'
      {
        if k < |shown| {
          assert t[i] == shown[i] && t[i + 1] == shown[i + 1] && t[k] == shown[k];
        } else {
          assert t[k] == Ellipsis[k - |shown|];
        }
      }
    }
  }

  /** The ellipsis is decided on the text before stripping: a message whose
      visible text fits in full still gets `...` when its markup pushes it
      past 35 characters. */
  lemma EllipsisCountsMarkup(body: string, s: string)
    requires body != [] && '>' !in body
    requires TagFree(s) && |s| <= TitleWidth
    requires |body| + 2 + |s| > TitleWidth
    ensures DeriveTitle("<" + body + ">" + s) == s + Ellipsis
  {
    StripLeadingTag(body, s);
    StripTagsFixesTagFree(s);
  }
}
