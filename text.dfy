/** The JavaScript string primitives the app uses: `trim`, `split` on a
    regular expression that matches runs of delimiter characters, `join`,
    `toLowerCase` and `includes`. Strings are sequences of characters. */
module Text {

  /** The characters matched by the regular-expression class `\s`, which is
      also the set `String.prototype.trim` removes: the white-space and
      line-terminator code points of ECMAScript. */
  predicate IsSpace(c: char)
  {
    || c == ' ' || c == '\t' || c == '\n' || c == '\r'
    || c == '\U{000B}' || c == '\U{000C}'
    || c == '\U{00A0}' || c == '\U{1680}'
    || ('\U{2000}' <= c <= '\U{200A}')
    || c == '\U{2028}' || c == '\U{2029}' || c == '\U{202F}'
    || c == '\U{205F}' || c == '\U{3000}' || c == '\U{FEFF}'
  }

  /** No character of `s` satisfies `d`. */
  predicate NoneOf(s: string, d: char -> bool)
  {
    forall k :: 0 <= k < |s| ==> !d(s[k])
  }

  /** Every character of `s` is white space. */
  predicate IsBlank(s: string)
  {
    forall k :: 0 <= k < |s| ==> IsSpace(s[k])
  }

  /** Length of the longest prefix of `s` whose characters all satisfy `d`. */
  function SpanWhile(s: string, d: char -> bool): (n: nat)
    ensures n <= |s|
    ensures forall k :: 0 <= k < n ==> d(s[k])
    ensures n < |s| ==> !d(s[n])
  {
    if s != [] && d(s[0]) then 1 + SpanWhile(s[1..], d) else 0
  }

  /** Length of the longest prefix of `s` with no character satisfying `d`. */
  function SpanUntil(s: string, d: char -> bool): (n: nat)
    ensures n <= |s|
    ensures forall k :: 0 <= k < n ==> !d(s[k])
    ensures n < |s| ==> d(s[n])
  {
    if s != [] && !d(s[0]) then 1 + SpanUntil(s[1..], d) else 0
  }

  /** `s` is `r` with only white space before and after it. */
  predicate Framed(s: string, r: string)
  {
    exists i, j :: 0 <= i <= j <= |s| && r == s[i..j] && IsBlank(s[..i]) && IsBlank(s[j..])
  }

  /** A white-space character in front of a blank string keeps it blank. */
  lemma BlankCons(c: char, t: string)
    requires IsSpace(c) && IsBlank(t)
    ensures IsBlank([c] + t)
  {
    forall k | 1 <= k < |t| + 1 ensures IsSpace(([c] + t)[k]) {
      assert ([c] + t)[k] == t[k - 1];
    }
  }

  /** A white-space character after a blank string keeps it blank. */
  lemma BlankSnoc(t: string, c: char)
    requires IsSpace(c) && IsBlank(t)
    ensures IsBlank(t + [c])
  {
    forall k | 0 <= k < |t| ensures IsSpace((t + [c])[k]) {
      assert (t + [c])[k] == t[k];
    }
  }

  /** A leading space widens the blank frame. */
  lemma FramedFront(s: string, r: string)
    requires s != [] && IsSpace(s[0]) && Framed(s[1..], r)
    ensures Framed(s, r)
  {
    var t := s[1..];
    var i, j :| 0 <= i <= j <= |t| && r == t[i..j] && IsBlank(t[..i]) && IsBlank(t[j..]);
    DropFirstSlices(s, i, j);
    BlankCons(s[0], t[..i]);
    assert 0 <= i + 1 <= j + 1 <= |s| && r == s[i + 1..j + 1]
        && IsBlank(s[..i + 1]) && IsBlank(s[j + 1..]);
  }

  /** Slices of `s[1..]` as slices of `s`. */
  lemma DropFirstSlices(s: string, i: nat, j: nat)
    requires i <= j < |s|
    ensures s[1..][i..j] == s[i + 1..j + 1]
    ensures s[1..][j..] == s[j + 1..]
    ensures s[..i + 1] == [s[0]] + s[1..][..i]
  {
  }

  /** A trailing space widens the blank frame. */
  lemma FramedBack(s: string, r: string)
    requires s != [] && IsSpace(s[|s| - 1]) && Framed(s[..|s| - 1], r)
    ensures Framed(s, r)
  {
    var t := s[..|s| - 1];
    var i, j :| 0 <= i <= j <= |t| && r == t[i..j] && IsBlank(t[..i]) && IsBlank(t[j..]);
    DropLastSlices(s, i, j);
    BlankSnoc(t[j..], s[|s| - 1]);
    assert 0 <= i <= j <= |s| && r == s[i..j] && IsBlank(s[..i]) && IsBlank(s[j..]);
  }

  /** Slices of `s[..|s| - 1]` as slices of `s`. */
  lemma DropLastSlices(s: string, i: nat, j: nat)
    requires i <= j < |s|
    ensures s[..|s| - 1][i..j] == s[i..j]
    ensures s[..|s| - 1][..i] == s[..i]
    ensures s[j..] == s[..|s| - 1][j..] + [s[|s| - 1]]
  {
  }

  /** `String.prototype.trim`: drop leading and trailing white space, one
      character at a time from either end. */
  function Trim(s: string): (r: string)
    ensures |r| <= |s|
    ensures r == [] <==> IsBlank(s)
    ensures r != [] ==> !IsSpace(r[0]) && !IsSpace(r[|r| - 1])
    ensures forall c :: c in r ==> c in s
    decreases |s|
  {
    if s != [] && IsSpace(s[0]) then
      var r := Trim(s[1..]);
      assert IsBlank(s) <==> IsBlank(s[1..]) by {
        if IsBlank(s[1..]) {
          forall k | 1 <= k < |s| ensures IsSpace(s[k]) { assert s[k] == s[1..][k - 1]; }
        }
      }
      r
    else if s != [] && IsSpace(s[|s| - 1]) then
      var r := Trim(s[..|s| - 1]);
      assert !IsBlank(s) && !IsBlank(s[..|s| - 1]) by {
        assert s[..|s| - 1][0] == s[0];
      }
      r
    else
      s
  }

  /** What `trim` keeps is a contiguous middle of the input: only white space
      lies before and after it. */
  lemma {:induction false} TrimIsMiddle(s: string)
    ensures Framed(s, Trim(s))
    decreases |s|
  {
    if s != [] && IsSpace(s[0]) {
      TrimIsMiddle(s[1..]);
      FramedFront(s, Trim(s));
    } else if s != [] && IsSpace(s[|s| - 1]) {
      TrimIsMiddle(s[..|s| - 1]);
      FramedBack(s, Trim(s));
    } else {
      assert s == s[0..|s|] && s[..0] == [] && s[|s|..] == [];
    }
  }

  /** Trimming is idempotent. */
  lemma TrimIdempotent(s: string)
    ensures Trim(Trim(s)) == Trim(s)
  {
    TrimTrimmed(Trim(s));
  }

  /** A string without leading or trailing white space is its own trim. */
  lemma TrimTrimmed(s: string)
    requires s != [] ==> !IsSpace(s[0]) && !IsSpace(s[|s| - 1])
    ensures Trim(s) == s
  {
  }

  /** `s.split(re)` where `re` matches one or more consecutive characters
      satisfying `d`: the maximal runs of delimiters separate the pieces, so
      a leading or trailing run yields an empty first or last piece and the
      empty string yields a single empty piece. */
  function Split(s: string, d: char -> bool): (r: seq<string>)
    ensures |r| >= 1
    ensures forall k :: 0 <= k < |r| ==> NoneOf(r[k], d)
    decreases |s|
  {
    var i := SpanUntil(s, d);
    if i == |s| then [s]
    else
      var j := i + SpanWhile(s[i..], d);
      assert j > i;
      [s[..i]] + Split(s[j..], d)
  }

  /** Concatenation is associative. */
  lemma ConcatAssoc(x: string, y: string, z: string)
    ensures x + (y + z) == (x + y) + z
  {
  }

  /** A string is a prefix of itself followed by anything. */
  lemma PrefixOfConcat(x: string, y: string)
    ensures x <= x + y
  {
  }

  /** `ws.join(sep)`. */
  function Join(ws: seq<string>, sep: char): (r: string)
    ensures |ws| >= 1 ==> ws[0] <= r
  {
    if |ws| == 0 then ""
    else if |ws| == 1 then ws[0]
    else ws[0] + [sep] + Join(ws[1..], sep)
  }

  /** Splitting what a join produced gives back the words, provided each word
      is non-empty and free of delimiters and the separator is a delimiter. */
  lemma {:induction false} SplitJoin(ws: seq<string>, sep: char, d: char -> bool)
    requires |ws| >= 1
    requires d(sep)
    requires forall k :: 0 <= k < |ws| ==> ws[k] != [] && NoneOf(ws[k], d)
    ensures Split(Join(ws, sep), d) == ws
  {
    if |ws| > 1 {
      var rest := Join(ws[1..], sep);
      SplitJoin(ws[1..], sep, d);
      assert ws[1] <= rest;
      SplitStep(ws[0], sep, rest, d);
      assert ws == [ws[0]] + ws[1..];
    }
  }

  /** One step of `Split`: a delimiter-free word, one delimiter, then a
      string that does not start with a delimiter. */
  lemma SplitStep(w: string, sep: char, rest: string, d: char -> bool)
    requires NoneOf(w, d) && d(sep)
    requires rest == [] || !d(rest[0])
    ensures Split(w + [sep] + rest, d) == [w] + Split(rest, d)
  {
    var s := w + [sep] + rest;
    var i := |w|;
    assert s[i] == sep;
    assert SpanUntil(s, d) == i by {
      assert forall k :: 0 <= k < i ==> s[k] == w[k] && !d(s[k]);
    }
    var t := s[i..];
    assert t == [sep] + rest;
    assert SpanWhile(t, d) == 1 by {
      if rest != [] { assert t[1] == rest[0]; }
    }
    assert s[..i] == w && s[i + 1..] == rest;
  }

  /** A string that starts and ends with a non-delimiter splits into
      non-empty pieces only. */
  lemma {:induction false} SplitPiecesNonEmpty(s: string, d: char -> bool)
    requires s != [] && !d(s[0]) && !d(s[|s| - 1])
    ensures forall k :: 0 <= k < |Split(s, d)| ==> Split(s, d)[k] != []
    decreases |s|
  {
    var i := SpanUntil(s, d);
    if i < |s| {
      assert i > 0;
      var j := i + SpanWhile(s[i..], d);
      assert j < |s| by {
        assert !d(s[i..][|s| - i - 1]);
      }
      assert s[j..][0] == s[j];
      SplitPiecesNonEmpty(s[j..], d);
      var r := Split(s, d);
      assert r == [s[..i]] + Split(s[j..], d);
    }
  }

  /** When every run of delimiters in `s` is one `sep` and `s` neither starts
      nor ends with a delimiter, joining the pieces rebuilds `s`. */
  lemma {:induction false} JoinSplit(s: string, sep: char, d: char -> bool)
    requires d(sep)
    requires SingleSeparators(s, sep, d)
    requires s != [] ==> !d(s[0]) && !d(s[|s| - 1])
    ensures Join(Split(s, d), sep) == s
    decreases |s|
  {
    var i := SpanUntil(s, d);
    if i < |s| {
      var w, rest := s[..i], s[i + 1..];
      assert s == w + [sep] + rest && NoneOf(w, d) && rest != [] && !d(rest[0]) by {
        assert i + 1 < |s|;
        assert rest[0] == s[i + 1];
      }
      SplitStep(w, sep, rest, d);
      SingleSeparatorsTail(s, i + 1, sep, d);
      JoinSplit(rest, sep, d);
      JoinCons(w, Split(rest, d), sep);
    } else {
      assert Split(s, d) == [s];
    }
  }

  /** `s` with every maximal run of delimiters replaced by one `sep`: the
      reference reading of what splitting and joining again produces. */
  function Collapse(s: string, d: char -> bool, sep: char): (r: string)
    ensures |r| <= |s|
    decreases |s|
  {
    if s == [] then []
    else if d(s[0]) then [sep] + Collapse(s[SpanWhile(s, d)..], d, sep)
    else [s[0]] + Collapse(s[1..], d, sep)
  }

  /** A delimiter-free prefix passes through `Collapse` unchanged. */
  lemma {:induction false} CollapsePrefix(s: string, n: nat, d: char -> bool, sep: char)
    requires n <= |s| && forall k :: 0 <= k < n ==> !d(s[k])
    ensures Collapse(s, d, sep) == s[..n] + Collapse(s[n..], d, sep)
  {
    if n > 0 {
      var t := s[1..];
      CollapsePrefix(t, n - 1, d, sep);
      assert t[n - 1..] == s[n..];
      assert s[..n] == [s[0]] + t[..n - 1];
      ConcatAssoc([s[0]], t[..n - 1], Collapse(s[n..], d, sep));
    } else {
      assert s[..0] == [] && s[0..] == s;
    }
  }

  /** For every string, joining its pieces with `sep` collapses each run of
      delimiters to a single `sep` and keeps everything else. */
  lemma {:induction false} JoinSplitCollapse(s: string, d: char -> bool, sep: char)
    ensures Join(Split(s, d), sep) == Collapse(s, d, sep)
    decreases |s|
  {
    var i := SpanUntil(s, d);
    CollapsePrefix(s, i, d, sep);
    if i == |s| {
      assert s[..i] == s && s[i..] == [];
    } else {
      var t := s[i..];
      var j := i + SpanWhile(t, d);
      var tail := Collapse(s[j..], d, sep);
      assert Collapse(t, d, sep) == [sep] + tail by {
        assert t[SpanWhile(t, d)..] == s[j..];
      }
      assert Split(s, d) == [s[..i]] + Split(s[j..], d);
      JoinSplitCollapse(s[j..], d, sep);
      JoinCons(s[..i], Split(s[j..], d), sep);
      ConcatAssoc(s[..i], [sep], tail);
    }
  }

  /** Every delimiter in `s` is `sep` and no two delimiters are adjacent. */
  predicate SingleSeparators(s: string, sep: char, d: char -> bool)
  {
    && (forall k :: 0 <= k < |s| && d(s[k]) ==> s[k] == sep)
    && (forall k :: 0 <= k < |s| - 1 && d(s[k]) ==> !d(s[k + 1]))
  }

  /** A suffix of a string with single separators has single separators. */
  lemma SingleSeparatorsTail(s: string, j: nat, sep: char, d: char -> bool)
    requires j <= |s| && SingleSeparators(s, sep, d)
    ensures SingleSeparators(s[j..], sep, d)
  {
    var t := s[j..];
    forall k | 0 <= k < |t| && d(t[k]) ensures t[k] == sep {
      assert t[k] == s[j + k];
    }
    forall k | 0 <= k < |t| - 1 && d(t[k]) ensures !d(t[k + 1]) {
      assert t[k] == s[j + k] && t[k + 1] == s[j + k + 1];
    }
  }

  /** Joining a word in front of at least one more word puts one separator
      between them. */
  lemma JoinCons(w: string, ws: seq<string>, sep: char)
    requires |ws| >= 1
    ensures Join([w] + ws, sep) == w + [sep] + Join(ws, sep)
  {
    assert ([w] + ws)[1..] == ws;
  }

  /** Joining a prefix of the words gives a prefix of the joined string. */
  lemma {:induction false} JoinPrefix(ws: seq<string>, n: nat, sep: char)
    requires 1 <= n <= |ws|
    ensures Join(ws[..n], sep) <= Join(ws, sep)
  {
    if n > 1 {
      JoinPrefix(ws[1..], n - 1, sep);
      assert ws[..n][1..] == ws[1..][..n - 1];
    }
  }

  /** Characters that a join can contain: those of the words and the separator. */
  lemma {:induction false} JoinChars(ws: seq<string>, sep: char, c: char)
    requires c in Join(ws, sep)
    ensures c == sep || exists k :: 0 <= k < |ws| && c in ws[k]
  {
    if |ws| > 1 {
      var rest := Join(ws[1..], sep);
      if c !in ws[0] && c != sep {
        assert c in rest;
        JoinChars(ws[1..], sep, c);
        var k :| 0 <= k < |ws[1..]| && c in ws[1..][k];
        assert c in ws[k + 1];
      }
    }
  }

  /** The ASCII part of `toLowerCase`. */
  function LowerChar(c: char): (r: char)
    ensures !IsSpace(c) ==> !IsSpace(r)
    ensures IsSpace(c) ==> r == c
  {
    if 'A' <= c <= 'Z' then (c as int - 'A' as int + 'a' as int) as char else c
  }

  /** `String.prototype.toLowerCase`, restricted to ASCII letters. */
  function ToLower(s: string): (r: string)
    ensures |r| == |s|
    ensures forall k :: 0 <= k < |s| ==> r[k] == LowerChar(s[k])
  {
    seq(|s|, k requires 0 <= k < |s| => LowerChar(s[k]))
  }

  /** Lowering the case twice is lowering it once. */
  lemma ToLowerIdempotent(s: string)
    ensures ToLower(ToLower(s)) == ToLower(s)
  {
  }

  /** Lowering the case never changes which characters are white space, so a
      blank string stays blank and a non-blank one stays non-blank. */
  lemma ToLowerKeepsBlank(s: string)
    ensures IsBlank(ToLower(s)) <==> IsBlank(s)
  {
  }

  /** `hay.includes(needle)`: `needle` occurs in `hay` at some position. */
  predicate Contains(hay: string, needle: string)
  {
    exists i :: 0 <= i <= |hay| - |needle| && needle <= hay[i..]
  }

  /** Every piece of a string occurs in it. */
  lemma ContainsInfix(hay: string, i: nat, j: nat)
    requires i <= j <= |hay|
    ensures Contains(hay, hay[i..j])
  {
    assert hay[i..j] <= hay[i..];
  }
}
