/** What a note derives from its transcript: the title (the first few words,
    shortened with an ellipsis) and the summary, a two-bucket outline of the
    transcript's sentences. */
module NoteText {
  import opened Seqs
  import opened Text

  /** At most this many words make up a title. */
  const TitleWordLimit := 5
  /** A title longer than this is cut here and given an ellipsis. */
  const TitleLengthLimit := 30
  const Ellipsis := "..."

  /** The first (up to five) pieces of `content.split(/\s+/)`. */
  function FirstWords(content: string): (r: seq<string>)
    ensures 1 <= |r| <= TitleWordLimit
    ensures r <= Split(content, IsSpace)
    ensures |r| < TitleWordLimit ==> r == Split(content, IsSpace)
  {
    var ws := Split(content, IsSpace);
    if |ws| <= TitleWordLimit then ws else ws[..TitleWordLimit]
  }

  /** Those words joined with single spaces, before any shortening. */
  function TitleWords(content: string): string
  {
    Join(FirstWords(content), ' ')
  }

  /** `generateTitle`: the first five words, cut to 30 characters followed by
      an ellipsis when they are longer than that. */
  function Title(content: string): (r: string)
    ensures |r| <= TitleLengthLimit + |Ellipsis|
    ensures |TitleWords(content)| <= TitleLengthLimit ==> r == TitleWords(content)
    ensures |TitleWords(content)| > TitleLengthLimit ==>
              |r| == TitleLengthLimit + |Ellipsis| &&
              r[..TitleLengthLimit] == TitleWords(content)[..TitleLengthLimit] &&
              r[TitleLengthLimit..] == Ellipsis
  {
    var words := TitleWords(content);
    if |words| > TitleLengthLimit then words[..TitleLengthLimit] + Ellipsis else words
  }

  /** The only white space a title can hold is the plain space that joins
      its words: tabs, line breaks and other blanks of the transcript are gone. */
  lemma TitleSpacesArePlain(content: string)
    ensures forall c :: c in Title(content) && IsSpace(c) ==> c == ' '
  {
    var ws := FirstWords(content);
    var words := TitleWords(content);
    forall c | c in words && IsSpace(c) ensures c == ' ' {
      JoinChars(ws, ' ', c);
    }
    if |words| > TitleLengthLimit {
      forall c | c in words[..TitleLengthLimit] ensures c in words {
      }
    }
  }

  /** For a trimmed, non-empty transcript (what a saved note holds), the words
      of the title are exactly the first (up to five) words of the transcript. */
  lemma TitleWordsAreFirstWords(content: string)
    requires content != [] && Trim(content) == content
    ensures Split(TitleWords(content), IsSpace) == FirstWords(content)
  {
    SplitPiecesNonEmpty(content, IsSpace);
    var ws := FirstWords(content);
    assert forall k :: 0 <= k < |ws| ==> ws[k] == Split(content, IsSpace)[k];
    SplitJoin(ws, ' ', IsSpace);
  }

  /** When the transcript separates its words by single plain spaces, the
      untruncated title is the beginning of the transcript, and a transcript of
      at most five words and 30 characters is its own title. */
  lemma TitleOfSpacedContent(content: string)
    requires content != [] && Trim(content) == content
    requires SingleSeparators(content, ' ', IsSpace)
    ensures TitleWords(content) <= content
    ensures |Split(content, IsSpace)| <= TitleWordLimit && |content| <= TitleLengthLimit ==>
              Title(content) == content
  {
    var ws := Split(content, IsSpace);
    JoinSplit(content, ' ', IsSpace);
    if |ws| > TitleWordLimit {
      JoinPrefix(ws, TitleWordLimit, ' ');
    }
  }

  /** The sentence terminators `generateSummary` splits on: the Devanagari
      danda (U+0964), full stop, exclamation mark and question mark. */
  predicate IsSentenceEnd(c: char)
  {
    c == '\U{0964}' || c == '.' || c == '!' || c == '?'
  }

  /** `s => s.trim()` used as a filter: the piece has some non-blank character. */
  predicate IsNotBlank(s: string)
  {
    Trim(s) != []
  }

  /** The sentence candidates: the non-blank pieces between runs of sentence
      terminators, untrimmed and in transcript order. */
  function Candidates(content: string): (r: seq<string>)
    ensures forall k :: 0 <= k < |r| ==> NoneOf(r[k], IsSentenceEnd) && !IsBlank(r[k])
  {
    var pieces := Split(content, IsSentenceEnd);
    var r := Filter(pieces, IsNotBlank);
    assert forall k :: 0 <= k < |r| ==> r[k] in r;
    assert forall k :: 0 <= k < |r| ==> r[k] in pieces && IsNotBlank(r[k]);
    r
  }

  /** The candidates are exactly the non-blank pieces between runs of
      terminators: in transcript order, each as often as it occurs there, and
      no other string. */
  lemma CandidatesAreNonBlankPieces(content: string)
    ensures IsSubsequence(Candidates(content), Split(content, IsSentenceEnd))
    ensures forall x :: x in Candidates(content) <==>
              x in Split(content, IsSentenceEnd) && !IsBlank(x)
    ensures forall x :: !IsBlank(x) ==>
              multiset(Candidates(content))[x] == multiset(Split(content, IsSentenceEnd))[x]
  {
    assert forall x :: IsNotBlank(x) <==> !IsBlank(x);
  }

  /** A trimmed sentence of at most this length is treated as noise. */
  const NoiseLength := 10
  /** Candidates at an index below this are key points. */
  const LeadingKeyCount := 3
  /** A trimmed sentence longer than this is a key point wherever it stands. */
  const LongSentenceLength := 50

  datatype Category = Dropped | KeyPoint | Detail

  /** Where the candidate at index `i`, trimmed to `clean`, is filed. The index
      counts every non-blank candidate, including those dropped as noise. */
  function CategoryOf(i: nat, clean: string): Category
  {
    if |clean| <= NoiseLength then Dropped
    else if i < LeadingKeyCount || |clean| > LongSentenceLength then KeyPoint
    else Detail
  }

  /** The outline: the object with the keys "Key Points" and "Details". */
  datatype Summary = Summary(keyPoints: seq<string>, details: seq<string>)

  /** The `forEach` of `generateSummary` over the candidates `cands`, the
      first of which has index `i`. */
  function Classify(cands: seq<string>, i: nat): (r: Summary)
    ensures |r.keyPoints| + |r.details| <= |cands|
    decreases |cands|
  {
    if cands == [] then Summary([], [])
    else
      var rest := Classify(cands[1..], i + 1);
      var clean := Trim(cands[0]);
      match CategoryOf(i, clean)
      case Dropped => rest
      case KeyPoint => Summary([clean] + rest.keyPoints, rest.details)
      case Detail => Summary(rest.keyPoints, [clean] + rest.details)
  }

  /** `generateSummary`. */
  function Summarize(content: string): Summary
  {
    Classify(Candidates(content), 0)
  }

  /** Reference definition of one bucket: the trimmed candidates, in order,
      whose category is `cat`, the candidate at position `k` of `cands`
      having index `i + k`. */
  function Select(cands: seq<string>, i: nat, cat: Category): seq<string>
    decreases |cands|
  {
    if cands == [] then []
    else
      (if CategoryOf(i, Trim(cands[0])) == cat then [Trim(cands[0])] else [])
      + Select(cands[1..], i + 1, cat)
  }

  /** The sentences kept at all: the trimmed candidates longer than the noise
      length, in transcript order, whatever their index. */
  function Retained(cands: seq<string>): seq<string>
  {
    if cands == [] then []
    else
      (if |Trim(cands[0])| > NoiseLength then [Trim(cands[0])] else [])
      + Retained(cands[1..])
  }

  /** The one-pass classification fills each bucket exactly as the
      reference definition of that bucket selects it. */
  lemma {:induction false} ClassifyBuckets(cands: seq<string>, i: nat)
    ensures Classify(cands, i).keyPoints == Select(cands, i, KeyPoint)
    ensures Classify(cands, i).details == Select(cands, i, Detail)
    decreases |cands|
  {
    if cands != [] {
      ClassifyBuckets(cands[1..], i + 1);
    }
  }

  /** Every retained sentence lands in exactly one bucket, and each bucket
      keeps transcript order: the retained sentences are a merge of the two. */
  lemma {:induction false} ClassifyPartition(cands: seq<string>, i: nat)
    ensures Interleaving(Classify(cands, i).keyPoints, Classify(cands, i).details, Retained(cands))
    decreases |cands|
  {
    if cands != [] {
      ClassifyPartition(cands[1..], i + 1);
      var rest := Classify(cands[1..], i + 1);
      var clean := Trim(cands[0]);
      var m := Retained(cands);
      if |clean| > NoiseLength {
        assert m == [clean] + Retained(cands[1..]);
        assert m[1..] == Retained(cands[1..]);
        if CategoryOf(i, clean) == KeyPoint {
          var kp := [clean] + rest.keyPoints;
          assert kp[1..] == rest.keyPoints;
          assert Classify(cands, i) == Summary(kp, rest.details);
          assert Interleaving(kp, rest.details, m);
        } else {
          var dt := [clean] + rest.details;
          assert dt[1..] == rest.details;
          assert Classify(cands, i) == Summary(rest.keyPoints, dt);
          assert Interleaving(rest.keyPoints, dt, m);
        }
      } else {
        assert m == Retained(cands[1..]);
        assert Classify(cands, i) == rest;
      }
    }
  }

  /** Every sentence of either bucket is a trimmed candidate longer than the
      noise length. */
  lemma {:induction false} ClassifyMembers(cands: seq<string>, i: nat)
    ensures forall s :: s in Classify(cands, i).keyPoints || s in Classify(cands, i).details ==>
              |s| > NoiseLength && exists k :: 0 <= k < |cands| && s == Trim(cands[k])
    decreases |cands|
  {
    if cands != [] {
      ClassifyMembers(cands[1..], i + 1);
      var r := Classify(cands, i);
      var rest := Classify(cands[1..], i + 1);
      forall s | s in r.keyPoints || s in r.details
        ensures |s| > NoiseLength && exists k :: 0 <= k < |cands| && s == Trim(cands[k])
      {
        if s in rest.keyPoints || s in rest.details {
          var k :| 0 <= k < |cands[1..]| && s == Trim(cands[1..][k]);
          assert s == Trim(cands[k + 1]);
        } else {
          assert s == Trim(cands[0]);
        }
      }
    }
  }

  /** The summary of a transcript files every kept sentence in exactly one
      bucket, in transcript order, by the index rule; and every stored
      sentence is trimmed, longer than ten characters and free of sentence
      terminators. */
  lemma SummaryProperties(content: string)
    ensures Summarize(content).keyPoints == Select(Candidates(content), 0, KeyPoint)
    ensures Summarize(content).details == Select(Candidates(content), 0, Detail)
    ensures Interleaving(Summarize(content).keyPoints, Summarize(content).details,
                         Retained(Candidates(content)))
    ensures forall s :: s in Summarize(content).keyPoints || s in Summarize(content).details ==>
              |s| > NoiseLength && Trim(s) == s && NoneOf(s, IsSentenceEnd)
  {
    var cands := Candidates(content);
    ClassifyBuckets(cands, 0);
    ClassifyPartition(cands, 0);
    ClassifyMembers(cands, 0);
    var r := Summarize(content);
    forall s | s in r.keyPoints || s in r.details
      ensures |s| > NoiseLength && Trim(s) == s && NoneOf(s, IsSentenceEnd)
    {
      var k :| 0 <= k < |cands| && s == Trim(cands[k]);
      TrimIdempotent(cands[k]);
      forall j | 0 <= j < |s| ensures !IsSentenceEnd(s[j]) {
        assert s[j] in s;
        assert s[j] in cands[k];
        var m :| 0 <= m < |cands[k]| && cands[k][m] == s[j];
      }
    }
  }

  /** The index of a candidate counts the noise before it: after three
      candidates dropped as noise, a sentence of 11 to 50 characters is filed
      under Details although it is the first sentence kept. */
  lemma NoiseCountsTowardIndex(a: string, b: string, c: string, d: string)
    requires |Trim(a)| <= NoiseLength && |Trim(b)| <= NoiseLength && |Trim(c)| <= NoiseLength
    requires NoiseLength < |Trim(d)| <= LongSentenceLength
    ensures Classify([a, b, c, d], 0) == Summary([], [Trim(d)])
  {
    assert Classify([d], 3) == Summary([], [Trim(d)]) by {
      assert [d][1..] == [];
    }
    assert Classify([c, d], 2) == Summary([], [Trim(d)]) by {
      assert [c, d][1..] == [d];
    }
    assert Classify([b, c, d], 1) == Summary([], [Trim(d)]) by {
      assert [b, c, d][1..] == [c, d];
    }
    assert [a, b, c, d][1..] == [b, c, d];
  }
}
