/** The Ruby String operations the three converters rely on, as functions on seq<char>:
    gsub with the fixed patterns they use, squeeze(' '), chomp('/'), strip, ljust and
    Integer#to_s, together with the facts about them that the converters depend on. */
module RubyStrings {

  /** A Ruby String object, which `gsub!` and `squeeze!` change in place and which its holders share. */
  class MutableString {
    var value: string

    constructor (value: string)
      ensures this.value == value
    {
      this.value := value;
    }
  }

  // ---------------------------------------------------------------------------
  // Character classes
  // ---------------------------------------------------------------------------

  /** Ruby's regular-expression class \s: space, tab, newline, vertical tab, form feed, carriage return. */
  predicate IsRegexSpace(c: char) {
    c == ' ' || c == '\t' || c == '\n' || c == '\U{0B}' || c == '\U{0C}' || c == '\r'
  }

  /** The characters String#strip removes at either end: \s and NUL. */
  predicate IsStripSpace(c: char) {
    IsRegexSpace(c) || c == '\0'
  }

  function Repeat(c: char, n: nat): (r: string)
    ensures |r| == n
    ensures forall i :: 0 <= i < n ==> r[i] == c
  {
    if n == 0 then [] else [c] + Repeat(c, n - 1)
  }

  predicate StartsWith(s: string, p: string) {
    |p| <= |s| && s[..|p|] == p
  }

  predicate EndsWith(s: string, p: string) {
    |p| <= |s| && s[|s| - |p|..] == p
  }

  /** The characters of s that are not in cs, in order. */
  function RemoveChars(s: string, cs: set<char>): string {
    if s == [] then []
    else (if s[0] in cs then [] else [s[0]]) + RemoveChars(s[1..], cs)
  }

  lemma RemoveCharsConcat(a: string, b: string, cs: set<char>)
    ensures RemoveChars(a + b, cs) == RemoveChars(a, cs) + RemoveChars(b, cs)
  {
    if a == [] {
      assert a + b == b;
    } else {
      assert (a + b)[1..] == a[1..] + b;
      RemoveCharsConcat(a[1..], b, cs);
    }
  }

  // ---------------------------------------------------------------------------
  // squeeze(' ')
  // ---------------------------------------------------------------------------

  predicate NoDoubleSpace(s: string) {
    forall i :: 0 <= i < |s| - 1 ==> !(s[i] == ' ' && s[i + 1] == ' ')
  }

  /** String#squeeze(' '): each run of spaces becomes a single space. The first and the
      last character survive, so squeezing two pieces that do not meet in two spaces can
      be done piece by piece (SqueezeConcat). */
  function Squeeze(s: string): (r: string)
    ensures |r| <= |s|
    ensures |s| > 0 ==> |r| > 0 && r[0] == s[0] && r[|r| - 1] == s[|s| - 1]
  {
    if |s| <= 1 then s
    else if s[0] == ' ' && s[1] == ' ' then Squeeze(s[1..])
    else [s[0]] + Squeeze(s[1..])
  }

  lemma {:induction false} SqueezeNoDoubleSpace(s: string)
    ensures NoDoubleSpace(Squeeze(s))
  {
    if |s| > 1 {
      SqueezeNoDoubleSpace(s[1..]);
      if !(s[0] == ' ' && s[1] == ' ') {
        var r := Squeeze(s);
        assert r == [s[0]] + Squeeze(s[1..]);
        forall i | 0 <= i < |r| - 1 ensures !(r[i] == ' ' && r[i + 1] == ' ') {
          if i > 0 {
            assert r[i] == Squeeze(s[1..])[i - 1] && r[i + 1] == Squeeze(s[1..])[i];
          }
        }
      }
    }
  }

  /** A string without two adjacent spaces is left as it is. */
  lemma {:induction false} SqueezeFixpoint(s: string)
    requires NoDoubleSpace(s)
    ensures Squeeze(s) == s
  {
    if |s| > 1 {
      assert NoDoubleSpace(s[1..]) by {
        forall i | 0 <= i < |s[1..]| - 1 ensures !(s[1..][i] == ' ' && s[1..][i + 1] == ' ') {
          assert s[1..][i] == s[i + 1] && s[1..][i + 1] == s[i + 2];
        }
      }
      SqueezeFixpoint(s[1..]);
      assert !(s[0] == ' ' && s[1] == ' ');
      assert s == [s[0]] + s[1..];
    }
  }

  lemma SqueezeIdempotent(s: string)
    ensures Squeeze(Squeeze(s)) == Squeeze(s)
  {
    SqueezeNoDoubleSpace(s);
    SqueezeFixpoint(Squeeze(s));
  }

  /** Squeezing only ever deletes spaces: every other character survives, in order. */
  lemma {:induction false} SqueezeKeepsNonSpaces(s: string)
    ensures RemoveChars(Squeeze(s), {' '}) == RemoveChars(s, {' '})
  {
    if |s| > 1 {
      SqueezeKeepsNonSpaces(s[1..]);
      if s[0] == ' ' && s[1] == ' ' {
        assert RemoveChars(s, {' '}) == RemoveChars(s[1..], {' '});
      } else {
        var t := Squeeze(s[1..]);
        assert ([s[0]] + t)[1..] == t;
      }
    }
  }

  lemma {:induction false} SqueezeChars(s: string)
    ensures forall c :: c in Squeeze(s) ==> c in s
  {
    if |s| > 1 {
      SqueezeChars(s[1..]);
    }
  }

  /** Squeezing distributes over a concatenation whose seam is not two spaces. */
  lemma {:induction false} SqueezeConcat(a: string, b: string)
    requires a == [] || b == [] || a[|a| - 1] != ' ' || b[0] != ' '
    ensures Squeeze(a + b) == Squeeze(a) + Squeeze(b)
  {
    if a == [] {
      assert a + b == b;
    } else if b == [] {
      assert a + b == a;
    } else if |a| == 1 {
      assert (a + b)[1..] == b;
    } else {
      assert (a + b)[1..] == a[1..] + b;
      SqueezeConcat(a[1..], b);
    }
  }

  /** Each maximal run of plain spaces becomes one space; every other character is kept. */
  function CollapseSpaceRuns(s: string): string
    decreases |s|
  {
    if s == [] then []
    else if s[0] == ' ' then [' '] + CollapseSpaceRuns(DropLeadingSpaces(s))
    else [s[0]] + CollapseSpaceRuns(s[1..])
  }

  /** String#squeeze(' ') collapses every run of spaces to exactly one space: a single space
      is kept, so no two words run together. */
  lemma {:induction false} SqueezeIsCollapseSpaceRuns(s: string)
    ensures Squeeze(s) == CollapseSpaceRuns(s)
    decreases |s|
  {
    if s == [] {
    } else if s[0] == ' ' {
      var t := DropLeadingSpaces(s);
      DropLeadingSpacesSuffix(s);
      SqueezeIsCollapseSpaceRuns(t);
      SqueezeSpaceRun(|s| - |t|, t);
    } else {
      SqueezeIsCollapseSpaceRuns(s[1..]);
      assert s == [s[0]] + s[1..];
    }
  }

  /** A run of k >= 1 spaces in front of a string that does not start with a space squeezes to one. */
  lemma {:induction false} SqueezeSpaceRun(k: nat, x: string)
    requires k >= 1
    requires x == [] || x[0] != ' '
    ensures Squeeze(Repeat(' ', k) + x) == [' '] + Squeeze(x)
  {
    if k == 1 {
      assert Repeat(' ', 1) + x == [' '] + x;
      if x != [] {
        assert ([' '] + x)[1..] == x;
      }
    } else {
      assert Repeat(' ', k) + x == [' '] + (Repeat(' ', k - 1) + x);
      assert (Repeat(' ', k) + x)[1..] == Repeat(' ', k - 1) + x;
      SqueezeSpaceRun(k - 1, x);
    }
  }

  // ---------------------------------------------------------------------------
  // Whitespace normalisation of raw markup
  // ---------------------------------------------------------------------------

  /** gsub(/\s/, ' '): every \s character becomes a space. */
  function BlankRegexSpaces(s: string): string {
    if s == [] then [] else [if IsRegexSpace(s[0]) then ' ' else s[0]] + BlankRegexSpaces(s[1..])
  }

  /** gsub(/\n|\t/, ' '): only newlines and tabs become spaces. */
  function BlankNewlinesTabs(s: string): string {
    if s == [] then [] else [if s[0] == '\n' || s[0] == '\t' then ' ' else s[0]] + BlankNewlinesTabs(s[1..])
  }

  /** The rest of s after its leading \s characters. */
  function DropLeadingRegexSpaces(s: string): (r: string)
    ensures |r| <= |s|
    ensures s != [] && IsRegexSpace(s[0]) ==> |r| < |s|
    ensures r == [] || !IsRegexSpace(r[0])
  {
    if s != [] && IsRegexSpace(s[0]) then DropLeadingRegexSpaces(s[1..]) else s
  }

  /** gsub(/\s+/, ' '): each maximal run of \s characters becomes one space. */
  function CollapseRegexSpaceRuns(s: string): string
    decreases |s|
  {
    if s == [] then []
    else if IsRegexSpace(s[0]) then [' '] + CollapseRegexSpaceRuns(DropLeadingRegexSpaces(s))
    else [s[0]] + CollapseRegexSpaceRuns(s[1..])
  }

  lemma {:induction false} BlankLeadingRun(s: string)
    ensures BlankRegexSpaces(s) == Repeat(' ', |s| - |DropLeadingRegexSpaces(s)|) + BlankRegexSpaces(DropLeadingRegexSpaces(s))
  {
    if s != [] && IsRegexSpace(s[0]) {
      var t := DropLeadingRegexSpaces(s[1..]);
      assert DropLeadingRegexSpaces(s) == t;
      BlankLeadingRun(s[1..]);
      var k := |s[1..]| - |t|;
      var bt := BlankRegexSpaces(t);
      calc {
        BlankRegexSpaces(s);
        [' '] + BlankRegexSpaces(s[1..]);
        [' '] + (Repeat(' ', k) + bt);
        ([' '] + Repeat(' ', k)) + bt;
        { assert Repeat(' ', k + 1) == [' '] + Repeat(' ', k); }
        Repeat(' ', k + 1) + bt;
      }
    }
  }

  lemma BlankStart(s: string)
    requires s != [] && !IsRegexSpace(s[0])
    ensures BlankRegexSpaces(s) != [] && BlankRegexSpaces(s)[0] == s[0] && s[0] != ' '
  {
  }

  /** The regular-expression form gsub(/\s+/, ' ') and the two-step form
      gsub(/\s/, ' ').squeeze(' ') are the same function. */
  lemma {:induction false} CollapseIsBlankThenSqueeze(s: string)
    ensures CollapseRegexSpaceRuns(s) == Squeeze(BlankRegexSpaces(s))
    decreases |s|
  {
    if s == [] {
    } else if IsRegexSpace(s[0]) {
      var t := DropLeadingRegexSpaces(s);
      BlankLeadingRun(s);
      CollapseIsBlankThenSqueeze(t);
      if t != [] {
        BlankStart(t);
      }
      SqueezeSpaceRun(|s| - |t|, BlankRegexSpaces(t));
    } else {
      CollapseIsBlankThenSqueeze(s[1..]);
      var b := BlankRegexSpaces(s[1..]);
      assert BlankRegexSpaces(s) == [s[0]] + b;
      if b != [] {
        assert ([s[0]] + b)[1..] == b;
      }
    }
  }

  /** No character of s is in \s other than the plain space. */
  predicate OnlyPlainSpaces(s: string) {
    forall i :: 0 <= i < |s| ==> IsRegexSpace(s[i]) ==> s[i] == ' '
  }

  lemma {:induction false} BlankRegexSpacesPlain(s: string)
    ensures OnlyPlainSpaces(BlankRegexSpaces(s))
    ensures RemoveChars(BlankRegexSpaces(s), {' '}) == RemoveChars(s, {' ', '\t', '\n', '\U{0B}', '\U{0C}', '\r'})
  {
    if s != [] {
      BlankRegexSpacesPlain(s[1..]);
      var b := BlankRegexSpaces(s);
      assert b[1..] == BlankRegexSpaces(s[1..]);
      forall i | 0 <= i < |b| && IsRegexSpace(b[i]) ensures b[i] == ' ' {
        if i > 0 { assert b[i] == b[1..][i - 1]; }
      }
    }
  }

  lemma {:induction false} BlankNewlinesTabsFacts(s: string)
    ensures '\n' !in BlankNewlinesTabs(s) && '\t' !in BlankNewlinesTabs(s)
    ensures RemoveChars(BlankNewlinesTabs(s), {' '}) == RemoveChars(s, {' ', '\n', '\t'})
  {
    if s != [] {
      BlankNewlinesTabsFacts(s[1..]);
      assert BlankNewlinesTabs(s)[1..] == BlankNewlinesTabs(s[1..]);
    }
  }

  // ---------------------------------------------------------------------------
  // gsub('</p>', "</p>\n\n")
  // ---------------------------------------------------------------------------

  const ParagraphClose: string := "</p>"

  /** gsub('</p>', "</p>\n\n"): scans left to right and gives every closing paragraph tag two newlines. */
  function PadParagraphs(s: string): string
    decreases |s|
  {
    if StartsWith(s, ParagraphClose) then ParagraphClose + "\n\n" + PadParagraphs(s[4..])
    else if s == [] then []
    else [s[0]] + PadParagraphs(s[1..])
  }

  lemma {:induction false} PadParagraphsShort(s: string)
    requires |s| < 4
    ensures PadParagraphs(s) == s
    decreases |s|
  {
    if s != [] {
      PadParagraphsShort(s[1..]);
    }
  }

  /** A padded string begins with the same (up to) four characters as the original. */
  lemma {:induction false} PadParagraphsPrefix(s: string, k: nat)
    requires k <= 4 && k <= |s|
    ensures |PadParagraphs(s)| >= k && PadParagraphs(s)[..k] == s[..k]
    decreases |s|
  {
    if StartsWith(s, ParagraphClose) {
      assert s[..k] == ParagraphClose[..k];
    } else if k > 0 {
      PadParagraphsPrefix(s[1..], k - 1);
      assert s[..k] == [s[0]] + s[1..][..k - 1];
    }
  }

  /** Padding never creates a "</p>" at the very start. */
  lemma PadParagraphsStart(s: string)
    ensures StartsWith(PadParagraphs(s), ParagraphClose) ==> StartsWith(s, ParagraphClose)
    ensures StartsWith(PadParagraphs(s), "</p>\n\n") ==> StartsWith(s, ParagraphClose)
  {
    var r := PadParagraphs(s);
    if |s| < 4 {
      PadParagraphsShort(s);
    } else {
      PadParagraphsPrefix(s, 4);
      if |r| >= 6 {
        assert r[..6][..4] == r[..4];
      }
    }
  }

  lemma InsertedHasNoOpenAngle(rest: string, i: nat)
    requires 0 < i < 6
    ensures ("</p>\n\n" + rest)[i] != '<'
  {
  }

  /** A slice that lies inside the second part of a concatenation is a slice of that part. */
  lemma SliceOfConcat(a: string, b: string, lo: nat, hi: nat)
    requires |a| <= lo <= hi <= |a| + |b|
    ensures (a + b)[lo..hi] == b[lo - |a|..hi - |a|]
  {
    forall k | 0 <= k < hi - lo ensures (a + b)[lo..hi][k] == b[lo - |a|..hi - |a|][k] {
      assert (a + b)[lo..hi][k] == (a + b)[lo + k] == b[lo + k - |a|];
    }
  }

  /** Every "</p>" in the padded markup is followed by "\n\n". */
  lemma {:induction false} PadParagraphsFollowed(s: string, i: nat)
    ensures var r := PadParagraphs(s);
      i + 4 <= |r| && r[i..i + 4] == ParagraphClose ==> i + 6 <= |r| && r[i + 4..i + 6] == "\n\n"
    decreases |s|
  {
    var r := PadParagraphs(s);
    if StartsWith(s, ParagraphClose) {
      var rest := PadParagraphs(s[4..]);
      assert r == "</p>\n\n" + rest;
      if 0 < i < 6 {
        InsertedHasNoOpenAngle(rest, i);
        if i + 4 <= |r| {
          assert r[i..i + 4][0] == r[i];
        }
      } else if i >= 6 {
        PadParagraphsFollowed(s[4..], i - 6);
        if i + 4 <= |r| {
          SliceOfConcat("</p>\n\n", rest, i, i + 4);
        }
        if i + 6 <= |r| {
          SliceOfConcat("</p>\n\n", rest, i + 4, i + 6);
        }
      }
    } else if s != [] {
      var rest := PadParagraphs(s[1..]);
      assert r == [s[0]] + rest;
      if i == 0 {
        // the tag would have to start s itself
        PadParagraphsStart(s);
        if 4 <= |r| {
          assert r[..4] == r[i..i + 4];
        }
      } else {
        PadParagraphsFollowed(s[1..], i - 1);
        if i + 4 <= |r| {
          SliceOfConcat([s[0]], rest, i, i + 4);
        }
        if i + 6 <= |r| {
          SliceOfConcat([s[0]], rest, i + 4, i + 6);
        }
      }
    }
  }

  /** Removes the two newlines after each "</p>": the inverse of PadParagraphs. */
  function UnpadParagraphs(s: string): string
    decreases |s|
  {
    if StartsWith(s, "</p>\n\n") then ParagraphClose + UnpadParagraphs(s[6..])
    else if s == [] then []
    else [s[0]] + UnpadParagraphs(s[1..])
  }

  lemma {:induction false} UnpadPadParagraphs(s: string)
    ensures UnpadParagraphs(PadParagraphs(s)) == s
    decreases |s|
  {
    var r := PadParagraphs(s);
    if StartsWith(s, ParagraphClose) {
      assert r[..6] == "</p>\n\n" && r[6..] == PadParagraphs(s[4..]);
      UnpadPadParagraphs(s[4..]);
      assert s == ParagraphClose + s[4..];
    } else if s != [] {
      assert r == [s[0]] + PadParagraphs(s[1..]);
      PadParagraphsStart(s);
      assert r[1..] == PadParagraphs(s[1..]);
      UnpadPadParagraphs(s[1..]);
    }
  }

  // ---------------------------------------------------------------------------
  // Splitting and joining; lines as Ruby's ^ and $ anchors see them
  // ---------------------------------------------------------------------------

  /** String#split(sep, -1): the parts between separators, keeping empty parts, also the one after a final separator. */
  function Split(s: string, sep: char): (r: seq<string>)
    ensures |r| >= 1
    ensures forall i :: 0 <= i < |r| ==> sep !in r[i]
  {
    if s == [] then [[]]
    else if s[0] == sep then [[]] + Split(s[1..], sep)
    else
      var t := Split(s[1..], sep);
      [[s[0]] + t[0]] + t[1..]
  }

  /** Array#join(sep). */
  function JoinWith(ls: seq<string>, sep: char): string {
    if |ls| == 0 then []
    else if |ls| == 1 then ls[0]
    else ls[0] + [sep] + JoinWith(ls[1..], sep)
  }

  lemma {:induction false} JoinSplit(s: string, sep: char)
    ensures JoinWith(Split(s, sep), sep) == s
  {
    if s != [] {
      JoinSplit(s[1..], sep);
      var t := Split(s[1..], sep);
      if s[0] != sep {
        var r := Split(s, sep);
        assert r[1..] == t[1..];
        if |t| > 1 {
          assert JoinWith(r, sep) == [s[0]] + t[0] + [sep] + JoinWith(t[1..], sep);
        }
      }
    }
  }

  lemma {:induction false} SplitOfPrefix(l: string, x: string, sep: char)
    requires sep !in l
    ensures Split(l + x, sep) == [l + Split(x, sep)[0]] + Split(x, sep)[1..]
  {
    if l != [] {
      assert (l + x)[1..] == l[1..] + x;
      assert (l + x)[0] == l[0] != sep;
      SplitOfPrefix(l[1..], x, sep);
      assert [l[0]] + (l[1..] + Split(x, sep)[0]) == l + Split(x, sep)[0];
    } else {
      assert l + x == x;
      assert l + Split(x, sep)[0] == Split(x, sep)[0];
      assert Split(x, sep) == [Split(x, sep)[0]] + Split(x, sep)[1..];
    }
  }

  /** Splitting parts that hold no separator after joining them gives them back. */
  lemma {:induction false} SplitJoin(ls: seq<string>, sep: char)
    requires |ls| >= 1
    requires forall i :: 0 <= i < |ls| ==> sep !in ls[i]
    ensures Split(JoinWith(ls, sep), sep) == ls
  {
    if |ls| == 1 {
      SplitOfPrefix(ls[0], [], sep);
      assert ls[0] + [] == ls[0];
    } else {
      SplitJoin(ls[1..], sep);
      var j := JoinWith(ls[1..], sep);
      assert JoinWith(ls, sep) == ls[0] + ([sep] + j);
      SplitOfPrefix(ls[0], [sep] + j, sep);
      assert ([sep] + j)[1..] == j;
      assert Split([sep] + j, sep) == [[]] + ls[1..];
      assert ls[0] + [] == ls[0];
      assert ls == [ls[0]] + ls[1..];
    }
  }

  /** The lines of s as Ruby's ^ and $ anchors see them: the parts between "\n" characters. */
  function Lines(s: string): (r: seq<string>)
    ensures |r| >= 1
    ensures forall i :: 0 <= i < |r| ==> '\n' !in r[i]
  {
    Split(s, '\n')
  }

  /** Lines joined with "\n". */
  function Join(ls: seq<string>): string {
    JoinWith(ls, '\n')
  }

  // ---------------------------------------------------------------------------
  // gsub(/^ +| +$/, ''): trimming runs of spaces at both ends of every line
  // ---------------------------------------------------------------------------

  /** The line after its leading spaces: a suffix of l. */
  function DropLeadingSpaces(l: string): (r: string)
    ensures |r| <= |l|
    ensures l != [] && l[0] == ' ' ==> |r| < |l|
    ensures r == [] || r[0] != ' '
  {
    if l != [] && l[0] == ' ' then DropLeadingSpaces(l[1..]) else l
  }

  /** The line without its trailing spaces: a prefix of l. */
  function DropTrailingSpaces(l: string): (r: string)
    ensures |r| <= |l|
    ensures r == [] || r[|r| - 1] != ' '
  {
    if l != [] && l[|l| - 1] == ' ' then DropTrailingSpaces(l[..|l| - 1]) else l
  }

  lemma {:induction false} DropLeadingSpacesSuffix(l: string)
    ensures l == Repeat(' ', |l| - |DropLeadingSpaces(l)|) + DropLeadingSpaces(l)
  {
    if l != [] && l[0] == ' ' {
      DropLeadingSpacesSuffix(l[1..]);
      var k := |l[1..]| - |DropLeadingSpaces(l[1..])|;
      assert Repeat(' ', k + 1) == [' '] + Repeat(' ', k);
      assert l == [' '] + l[1..];
    } else {
      assert Repeat(' ', 0) == [];
    }
  }

  lemma {:induction false} DropTrailingSpacesPrefix(l: string)
    ensures l == DropTrailingSpaces(l) + Repeat(' ', |l| - |DropTrailingSpaces(l)|)
  {
    if l != [] && l[|l| - 1] == ' ' {
      var p := l[..|l| - 1];
      DropTrailingSpacesPrefix(p);
      var k := |p| - |DropTrailingSpaces(p)|;
      assert Repeat(' ', k + 1) == Repeat(' ', k) + [' '];
      assert l == p + [' '];
    } else {
      assert Repeat(' ', 0) == [];
    }
  }

  /** Removes the runs of plain spaces (and only those) at the start and the end of one line. */
  function TrimSpaces(l: string): string {
    DropTrailingSpaces(DropLeadingSpaces(l))
  }

  predicate Trimmed(l: string) {
    l == [] || (l[0] != ' ' && l[|l| - 1] != ' ')
  }

  /** A trimmed line is the original with a run of spaces cut from each end, and nothing else. */
  lemma TrimSpacesSlice(l: string)
    ensures exists a: nat, b: nat :: l == Repeat(' ', a) + TrimSpaces(l) + Repeat(' ', b)
  {
    var d := DropLeadingSpaces(l);
    DropLeadingSpacesSuffix(l);
    DropTrailingSpacesPrefix(d);
    var a, b := |l| - |d|, |d| - |TrimSpaces(l)|;
    assert l == Repeat(' ', a) + TrimSpaces(l) + Repeat(' ', b);
  }

  lemma TrimSpacesTrimmed(l: string)
    ensures Trimmed(TrimSpaces(l))
  {
    var d := DropLeadingSpaces(l);
    var t := TrimSpaces(l);
    DropTrailingSpacesPrefix(d);
    if t != [] {
      assert d[0] == t[0];
    }
  }

  lemma TrimSpacesNoNewline(l: string)
    requires '\n' !in l
    ensures '\n' !in TrimSpaces(l)
  {
    var d := DropLeadingSpaces(l);
    var t := TrimSpaces(l);
    DropLeadingSpacesSuffix(l);
    DropTrailingSpacesPrefix(d);
    assert forall c :: c in t ==> c in d;
    assert forall c :: c in d ==> c in l;
  }

  lemma TrimSpacesFixpoint(l: string)
    requires Trimmed(l)
    ensures TrimSpaces(l) == l
  {
    assert DropLeadingSpaces(l) == l;
  }

  function TrimAll(ls: seq<string>): (r: seq<string>)
    ensures |r| == |ls| && forall i :: 0 <= i < |ls| ==> r[i] == TrimSpaces(ls[i])
  {
    seq(|ls|, i requires 0 <= i < |ls| => TrimSpaces(ls[i]))
  }

  /** doc.text.gsub(/^ +| +$/, ''), read line by line: Ruby's ^ and $ match at the start
      and end of every line, so each line loses its leading and trailing space runs. */
  function TrimLines(s: string): string {
    Join(TrimAll(Lines(s)))
  }

  /** TrimLines keeps the line structure (no line is added, none is lost, so no trailing
      newline is added) and each output line is the input line with its end spaces removed. */
  lemma TrimLinesLines(s: string)
    ensures Lines(TrimLines(s)) == TrimAll(Lines(s))
    ensures |Lines(TrimLines(s))| == |Lines(s)|
  {
    var ls := TrimAll(Lines(s));
    forall i | 0 <= i < |ls| ensures '\n' !in ls[i] {
      TrimSpacesNoNewline(Lines(s)[i]);
    }
    SplitJoin(ls, '\n');
  }

  predicate LinesTrimmed(s: string) {
    forall i :: 0 <= i < |Lines(s)| ==> Trimmed(Lines(s)[i])
  }

  lemma TrimLinesTrimmed(s: string)
    ensures LinesTrimmed(TrimLines(s))
  {
    TrimLinesLines(s);
    forall i | 0 <= i < |Lines(s)| ensures Trimmed(TrimAll(Lines(s))[i]) {
      TrimSpacesTrimmed(Lines(s)[i]);
    }
  }

  lemma TrimLinesIdempotent(s: string)
    ensures TrimLines(TrimLines(s)) == TrimLines(s)
  {
    var t := TrimLines(s);
    TrimLinesLines(s);
    TrimLinesTrimmed(s);
    assert TrimAll(Lines(t)) == Lines(t) by {
      forall i | 0 <= i < |Lines(t)| ensures TrimAll(Lines(t))[i] == Lines(t)[i] {
        TrimSpacesFixpoint(Lines(t)[i]);
      }
    }
    JoinSplit(t, '\n');
  }

  // ---------------------------------------------------------------------------
  // Other String methods
  // ---------------------------------------------------------------------------

  /** String#chomp('/'): removes one trailing "/" if there is one. */
  function ChompSlash(s: string): (r: string)
    ensures |s| > 0 && s[|s| - 1] == '/' ==> s == r + "/"
    ensures (|s| == 0 || s[|s| - 1] != '/') ==> r == s
  {
    if |s| > 0 && s[|s| - 1] == '/' then s[..|s| - 1] else s
  }

  function DropLeadingStripSpaces(s: string): (r: string)
    ensures |r| <= |s| && r == s[|s| - |r|..]
    ensures r == [] || !IsStripSpace(r[0])
  {
    if s != [] && IsStripSpace(s[0]) then DropLeadingStripSpaces(s[1..]) else s
  }

  function DropTrailingStripSpaces(s: string): (r: string)
    ensures |r| <= |s| && r == s[..|r|]
    ensures r == [] || !IsStripSpace(r[|r| - 1])
  {
    if s != [] && IsStripSpace(s[|s| - 1]) then DropTrailingStripSpaces(s[..|s| - 1]) else s
  }

  /** String#strip: removes whitespace and NUL characters from both ends. */
  function Strip(s: string): (r: string)
    ensures r == [] || (!IsStripSpace(r[0]) && !IsStripSpace(r[|r| - 1]))
  {
    var d := DropLeadingStripSpaces(s);
    var r := DropTrailingStripSpaces(d);
    assert r != [] ==> r[0] == d[0];
    r
  }

  /** String#ljust(w): pads with spaces on the right up to length w; never shortens. */
  function LJust(s: string, w: nat): (r: string)
    ensures |r| == if |s| < w then w else |s|
    ensures r[..|s|] == s
    ensures forall i :: |s| <= i < |r| ==> r[i] == ' '
  {
    if |s| < w then s + Repeat(' ', w - |s|) else s
  }

  function DigitChar(d: nat): char
    requires d < 10
  {
    ('0' as int + d) as char
  }

  predicate IsDigit(c: char) {
    '0' <= c <= '9'
  }

  /** Integer#to_s for a natural number: decimal digits, most significant first. */
  function Decimal(n: nat): (r: string)
    ensures |r| >= 1
    decreases n
  {
    if n < 10 then [DigitChar(n)] else Decimal(n / 10) + [DigitChar(n % 10)]
  }

  /** The number a string of decimal digits denotes. */
  function DecimalValue(s: string): nat {
    if s == [] then 0
    else DecimalValue(s[..|s| - 1]) * 10 + (if IsDigit(s[|s| - 1]) then s[|s| - 1] as int - '0' as int else 0)
  }

  /** Integer#to_s produces digits only, without a leading zero, and denotes the number. */
  lemma {:induction false} DecimalRoundTrip(n: nat)
    ensures forall i :: 0 <= i < |Decimal(n)| ==> IsDigit(Decimal(n)[i])
    ensures Decimal(n)[0] != '0' || n == 0
    ensures DecimalValue(Decimal(n)) == n
    decreases n
  {
    if n >= 10 {
      DecimalRoundTrip(n / 10);
      var d := Decimal(n);
      assert d[..|d| - 1] == Decimal(n / 10);
      assert d[0] == Decimal(n / 10)[0];
    }
  }
}
