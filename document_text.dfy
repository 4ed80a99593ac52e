/**
 * The text helpers of the document service: the file extension of a name, the
 * comma-separated tag list, and the word chunker that cuts extracted text into
 * fragments of at most a given number of words.
 */
module DocumentText {
  import opened Wrappers
  import opened JavaText

  /** Words per fragment used when a document is uploaded. */
  const ChunkWords: nat := 1000

  // ---------------------------------------------------------------------------
  // File extension
  // ---------------------------------------------------------------------------

  /** Some '.' of `filename` sits after its first character. */
  predicate HasDotAfterStart(filename: string) {
    exists i :: 0 < i < |filename| && filename[i] == '.'
  }

  /**
   * The text after the last '.' of `filename`, or "" when there is no '.' or the last
   * one is its first character.
   */
  function GetExtension(filename: string): (ext: string)
    ensures '.' !in ext
    ensures |ext| <= |filename| && ext == filename[|filename| - |ext|..]
    ensures HasDotAfterStart(filename) ==>
              |ext| + 1 < |filename| && filename[|filename| - |ext| - 1] == '.'
    ensures !HasDotAfterStart(filename) ==> ext == ""
  {
    var lastDot := LastIndexOf(filename, '.');
    if lastDot > 0 then filename[lastDot + 1..] else ""
  }

  // ---------------------------------------------------------------------------
  // Tags
  // ---------------------------------------------------------------------------

  /**
   * The tag list of an upload: none for a missing or empty argument, otherwise the
   * comma-separated pieces, untrimmed, in order, without trailing empty pieces.
   */
  function ParseTags(tags: Option<string>): (r: seq<string>)
    ensures tags.None? || tags.value == "" ==> r == []
    ensures forall j :: 0 <= j < |r| ==> ',' !in r[j]
    ensures r == [] || r[|r| - 1] != []
  {
    if tags.None? || tags.value == "" then [] else SplitOnChar(tags.value, ',')
  }

  /**
   * The tags joined back with commas are the tag text without its trailing commas. With
   * `ParseTags`' own contract (no tag holds a comma, none trails empty) this fixes the tags:
   * the comma-separated pieces in order, untrimmed, trailing empty ones dropped.
   */
  lemma TagsRoundTrip(s: string)
    ensures JoinWith(ParseTags(Some(s)), ',') == StripTrailing(s, ',')
  {
    if s != "" {
      SplitOnCharJoin(s, ',');
    }
  }

  /** A non-empty tag text yields no tag exactly when it consists of commas only. */
  lemma TagsEmptyIff(s: string)
    requires s != []
    ensures ParseTags(Some(s)) == [] <==> forall i :: 0 <= i < |s| ==> s[i] == ','
  {
    if forall i :: 0 <= i < |s| ==> s[i] == ',' {
      assert s[0] == ',';
      PiecesOfSeparators(s, ',');
    } else {
      var i :| 0 <= i < |s| && s[i] != ',';
      if ',' in s {
        PiecesHaveContent(s, ',', i);
      }
    }
  }

  // ---------------------------------------------------------------------------
  // Chunker
  // ---------------------------------------------------------------------------

  /** What the chunk buffer holds after appending each word of `ws` followed by one space. */
  function JoinSpaced(ws: seq<string>): (r: string)
    ensures |r| >= |ws|
  {
    if ws == [] then [] else JoinSpaced(ws[..|ws| - 1]) + ws[|ws| - 1] + " "
  }

  /** The fragment text of a group of words: the buffer, trimmed. */
  function Render(group: seq<string>): string {
    Trim(JoinSpaced(group))
  }

  function RenderAll(groups: seq<seq<string>>): (r: seq<string>)
    ensures |r| == |groups|
  {
    seq(|groups|, k requires 0 <= k < |groups| => Render(groups[k]))
  }

  /** A word `trim` cannot shorten: non-empty, every character above U+0020. */
  predicate IsPlainWord(w: string) {
    w != [] && forall i :: 0 <= i < |w| ==> w[i] > ' '
  }

  lemma {:induction false} JoinWithSnoc(g: seq<string>, w: string, sep: char)
    requires g != []
    ensures JoinWith(g + [w], sep) == JoinWith(g, sep) + [sep] + w
    decreases |g|
  {
    if |g| == 1 {
      assert g + [w] == [g[0], w];
    } else {
      assert (g + [w])[1..] == g[1..] + [w];
      JoinWithSnoc(g[1..], w, sep);
    }
  }

  lemma {:induction false} JoinSpacedIsJoin(g: seq<string>)
    requires g != []
    ensures JoinSpaced(g) == JoinWith(g, ' ') + " "
    decreases |g|
  {
    var p := g[..|g| - 1];
    if p == [] {
      assert g == [g[0]];
    } else {
      JoinSpacedIsJoin(p);
      JoinWithSnoc(p, g[|g| - 1], ' ');
      assert p + [g[|g| - 1]] == g;
    }
  }

  lemma {:induction false} JoinWithEnds(g: seq<string>)
    requires g != [] && forall j :: 0 <= j < |g| ==> IsPlainWord(g[j])
    ensures var x := JoinWith(g, ' '); x != [] && x[0] > ' ' && x[|x| - 1] > ' '
    decreases |g|
  {
    if |g| > 1 {
      JoinWithEnds(g[1..]);
      assert IsPlainWord(g[0]);
    } else {
      assert IsPlainWord(g[0]);
    }
  }

  lemma TrimOfPadded(x: string)
    requires x != [] && x[0] > ' ' && x[|x| - 1] > ' '
    ensures Trim(x + " ") == x
  {
    assert (x + " ")[0] == x[0];
    assert TrimStart(x + " ") == x + " ";
    assert (x + " ")[..|x|] == x;
    assert TrimEnd(x + " ") == TrimEnd(x);
    assert TrimEnd(x) == x;
  }

  /** A fragment of non-empty words whose characters are all above U+0020 is those words
      separated by single spaces. */
  lemma RenderPlainWords(g: seq<string>)
    requires g != [] && forall j :: 0 <= j < |g| ==> IsPlainWord(g[j])
    ensures Render(g) == JoinWith(g, ' ')
  {
    var x := JoinWith(g, ' ');
    JoinSpacedIsJoin(g);
    assert JoinSpaced(g) == x + " ";
    JoinWithEnds(g);
    assert x != [] && x[0] > ' ' && x[|x| - 1] > ' ';
    TrimOfPadded(x);
    assert Render(g) == Trim(x + " ");
  }

  /** `ws` cut, in order, into runs of `n` words; the last run holds the remainder. */
  function Groups(ws: seq<string>, n: nat): seq<seq<string>>
    requires n > 0
    decreases |ws|
  {
    if ws == [] then []
    else if |ws| <= n then [ws]
    else [ws[..n]] + Groups(ws[n..], n)
  }

  /** The words of a sequence of groups, read in order. */
  function Flatten(groups: seq<seq<string>>): seq<string> {
    if groups == [] then [] else groups[0] + Flatten(groups[1..])
  }

  /**
   * The fragments `chunkText(text, n)` returns: one per group of `n` split words, or the
   * text itself when the split yields no word.
   */
  function Chunks(text: string, n: nat): (r: seq<string>)
    requires n > 0
    ensures |r| >= 1
  {
    var words := SplitOnWhitespace(text);
    if words == [] then [text] else RenderAll(Groups(words, n))
  }

  /** `ws` is a whole number of `n`-word runs. */
  predicate WholeGroups(ws: seq<string>, n: nat)
    requires n > 0
    decreases |ws|
  {
    ws == [] || (|ws| >= n && WholeGroups(ws[n..], n))
  }

  lemma {:induction false} WholeGroupsAppend(a: seq<string>, b: seq<string>, n: nat)
    requires n > 0 && WholeGroups(a, n) && |b| == n
    ensures WholeGroups(a + b, n)
    decreases |a|
  {
    if a == [] {
      assert a + b == b && b[n..] == [];
    } else {
      assert (a + b)[n..] == a[n..] + b;
      WholeGroupsAppend(a[n..], b, n);
    }
  }

  lemma MulNonNegative(a: int, n: int)
    requires a >= 0 && n > 0
    ensures a * n >= 0
  {
  }

  lemma DivUnique(y: int, n: int, q: int)
    requires n > 0 && q * n <= y < q * n + n
    ensures y / n == q
  {
    var q', r' := y / n, y % n;
    assert y == q' * n + r' && 0 <= r' < n;
    if q' > q {
      MulNonNegative(q' - q - 1, n);
      assert false;
    } else if q' < q {
      MulNonNegative(q - q' - 1, n);
      assert false;
    }
  }

  /** Reading the groups' words in order gives back the word sequence: none lost, duplicated or moved. */
  lemma {:induction false} GroupsFlatten(ws: seq<string>, n: nat)
    requires n > 0
    ensures Flatten(Groups(ws, n)) == ws
    decreases |ws|
  {
    if |ws| > n {
      GroupsFlatten(ws[n..], n);
      assert ws == ws[..n] + ws[n..];
    } else if ws != [] {
      assert Flatten([ws]) == ws + Flatten([]);
    }
  }

  /** Every group holds between 1 and `n` words, and every group but the last exactly `n`. */
  lemma {:induction false} GroupsShape(ws: seq<string>, n: nat)
    requires n > 0
    ensures forall k :: 0 <= k < |Groups(ws, n)| ==> 0 < |Groups(ws, n)[k]| <= n
    ensures forall k :: 0 <= k < |Groups(ws, n)| - 1 ==> |Groups(ws, n)[k]| == n
    decreases |ws|
  {
    if |ws| > n {
      GroupsShape(ws[n..], n);
      var gs := Groups(ws, n);
      assert gs[1..] == Groups(ws[n..], n);
      forall k | 0 < k < |gs| ensures 0 < |gs[k]| <= n && (k < |gs| - 1 ==> |gs[k]| == n) {
        assert gs[k] == Groups(ws[n..], n)[k - 1];
      }
    }
  }

  /** There are ceil(|ws| / n) groups: the least `c` with |ws| <= c * n. */
  lemma {:induction false} GroupsCount(ws: seq<string>, n: nat)
    requires n > 0
    ensures var c := |Groups(ws, n)|; (c - 1) * n < |ws| <= c * n
    ensures |Groups(ws, n)| == (|ws| + n - 1) / n
    decreases |ws|
  {
    var c := |Groups(ws, n)|;
    if |ws| > n {
      GroupsCount(ws[n..], n);
      assert c == |Groups(ws[n..], n)| + 1;
      assert c * n == (c - 1) * n + n;
    }
    assert (c - 1) * n < |ws| <= c * n;
    assert c * n <= |ws| + n - 1 < c * n + n by {
      assert c * n == (c - 1) * n + n;
    }
    DivUnique(|ws| + n - 1, n, c);
  }

  /** Completing one more group after whole groups appends it as the last group. */
  lemma {:induction false} GroupsAppend(a: seq<string>, b: seq<string>, n: nat)
    requires n > 0 && WholeGroups(a, n) && 0 < |b| <= n
    ensures Groups(a + b, n) == Groups(a, n) + [b]
    decreases |a|
  {
    if a == [] {
      assert a + b == b;
    } else {
      assert (a + b)[..n] == a[..n];
      assert (a + b)[n..] == a[n..] + b;
      GroupsAppend(a[n..], b, n);
      if |a| == n {
        assert a[n..] == [];
        assert a[..n] == a;
      }
    }
  }

  /** The chunker never returns zero fragments: ceil(W / n) of them for W >= 1 split words, else one. */
  lemma ChunksCount(text: string, n: nat)
    requires n > 0
    ensures var w := |SplitOnWhitespace(text)|;
            |Chunks(text, n)| == if w == 0 then 1 else (w + n - 1) / n
    ensures |Chunks(text, n)| >= 1
  {
    var words := SplitOnWhitespace(text);
    if words != [] {
      GroupsCount(words, n);
    }
  }

  /** Whitespace-only text is returned whole as the single fragment. */
  lemma ChunksOfBlankText(text: string, n: nat)
    requires n > 0
    requires text != [] && AllRegexSpace(text)
    ensures Chunks(text, n) == [text]
  {
    SplitEmptyIff(text);
  }

  lemma RenderAllAppend(groups: seq<seq<string>>, g: seq<string>)
    ensures RenderAll(groups + [g]) == RenderAll(groups) + [Render(g)]
  {
    assert forall k :: 0 <= k < |groups| ==> (groups + [g])[k] == groups[k];
  }

  /** Extending a run of words by the next word appends that word and a space to the buffer. */
  lemma JoinSpacedStep(words: seq<string>, start: nat, i: nat)
    requires start <= i < |words|
    ensures JoinSpaced(words[start..i + 1]) == JoinSpaced(words[start..i]) + words[i] + " "
  {
    assert words[start..i + 1][..i - start] == words[start..i];
  }

  /** Closing the buffer that holds `words[start..i]` appends its fragment to those already closed. */
  lemma CloseGroup(words: seq<string>, start: nat, i: nat, n: nat)
    requires n > 0 && start < i <= |words| && i - start <= n
    requires WholeGroups(words[..start], n)
    ensures RenderAll(Groups(words[..start], n)) + [Render(words[start..i])]
              == RenderAll(Groups(words[..i], n))
    ensures i - start == n ==> WholeGroups(words[..i], n)
  {
    var closed := words[start..i];
    assert words[..start] + closed == words[..i];
    GroupsAppend(words[..start], closed, n);
    RenderAllAppend(Groups(words[..start], n), closed);
    if i - start == n {
      WholeGroupsAppend(words[..start], closed, n);
    }
  }

  /**
   * `chunkText`: split the text on whitespace, collect the words in a buffer, and close
   * the buffer as a fragment whenever it already holds `chunkSize` words and another arrives.
   */
  method ChunkText(text: string, chunkSize: nat) returns (chunks: seq<string>)
    requires chunkSize > 0
    ensures chunks == Chunks(text, chunkSize)
    ensures |chunks| >= 1
  {
    var words := SplitOnWhitespace(text);
    chunks := [];
    var current := "";
    var wordCount := 0;
    ghost var start := 0;
    var i := 0;
    while i < |words|
      invariant 0 <= start <= i <= |words|
      invariant wordCount == i - start <= chunkSize
      invariant i > 0 ==> start < i
      invariant WholeGroups(words[..start], chunkSize)
      invariant current == JoinSpaced(words[start..i])
      invariant chunks == RenderAll(Groups(words[..start], chunkSize))
    {
      if wordCount >= chunkSize {
        CloseGroup(words, start, i, chunkSize);
        chunks := chunks + [Trim(current)];
        current := "";
        wordCount := 0;
        start := i;
      }
      JoinSpacedStep(words, start, i);
      current := current + words[i] + " ";
      wordCount := wordCount + 1;
      i := i + 1;
    }
    if |current| > 0 {
      CloseGroup(words, start, i, chunkSize);
      assert words[..i] == words;
      chunks := chunks + [Trim(current)];
      assert chunks != [];
    } else {
      assert words == [] && words[..start] == [];
      assert chunks == [];
    }
    if chunks == [] {
      chunks := [text];
    }
    ChunksCount(text, chunkSize);
  }
}
