/** The pieces of Go's standard library that the manifest generator relies on:
    `strings.Index`, `strings.Contains` and `strings.ReplaceAll`, the line
    splitting of a `bufio.Scanner`, and the `%s` verb of `fmt.Sscanf`.
    Characters stand for the runes Go works on. */
module GoStrings {
  import opened Wrappers

  // ---------------------------------------------------------------------------
  // Searching

  /** `pat` occurs in `s` starting at position `i`. */
  predicate OccursAt(s: string, pat: string, i: int) {
    0 <= i && i + |pat| <= |s| && s[i..i + |pat|] == pat
  }

  /** An occurrence inside a prefix of `s` is an occurrence in `s`. */
  lemma OccursInPrefix(s: string, n: nat, pat: string, i: int)
    requires n <= |s| && OccursAt(s[..n], pat, i)
    ensures OccursAt(s, pat, i)
  {
    assert s[..n][i..i + |pat|] == s[i..i + |pat|];
  }

  /** strings.Index: the position of the leftmost occurrence of `pat`, or -1. */
  function Index(s: string, pat: string): (r: int)
    ensures -1 <= r && (r >= 0 ==> r + |pat| <= |s|)
    decreases |s|
  {
    if |s| < |pat| then -1
    else if s[..|pat|] == pat then 0
    else
      var r := Index(s[1..], pat);
      if r == -1 then -1 else r + 1
  }

  /** Index is -1 exactly when the pattern does not occur, and otherwise the
      leftmost position where it occurs. */
  lemma {:induction false} IndexSpec(s: string, pat: string)
    ensures Index(s, pat) == -1 <==> forall i :: !OccursAt(s, pat, i)
    ensures Index(s, pat) >= 0 ==>
      OccursAt(s, pat, Index(s, pat)) && forall i :: 0 <= i < Index(s, pat) ==> !OccursAt(s, pat, i)
    decreases |s|
  {
    if |s| < |pat| {
    } else if s[..|pat|] == pat {
      assert OccursAt(s, pat, 0);
    } else {
      IndexSpec(s[1..], pat);
      ShiftOccurrence(s, pat);
      assert !OccursAt(s, pat, 0) by {
        assert s[0..|pat|] == s[..|pat|];
      }
    }
  }

  /** The pattern stands at the position Index reports. */
  lemma IndexOccurs(s: string, pat: string)
    requires Index(s, pat) >= 0
    ensures s[Index(s, pat)..Index(s, pat) + |pat|] == pat
  {
    IndexSpec(s, pat);
  }

  /** A sequence is its three parts around two cut points. */
  lemma ThreeParts<T>(s: seq<T>, i: nat, j: nat)
    requires i <= j <= |s|
    ensures s == s[..i] + s[i..j] + s[j..]
  {
    assert s[..j] == s[..i] + s[i..j];
  }

  /** The text is what precedes the leftmost occurrence, the pattern, and what follows it. */
  lemma AroundIndex(s: string, pat: string)
    requires Index(s, pat) >= 0
    ensures s == s[..Index(s, pat)] + pat + s[Index(s, pat) + |pat|..]
  {
    var i := Index(s, pat);
    IndexOccurs(s, pat);
    ThreeParts(s, i, i + |pat|);
  }

  /** Occurrences in `s[1..]` are the occurrences in `s` shifted by one. */
  lemma ShiftOccurrence(s: string, pat: string)
    requires |s| > 0
    ensures forall i :: OccursAt(s[1..], pat, i) ==> OccursAt(s, pat, i + 1)
    ensures forall j :: OccursAt(s, pat, j) && j >= 1 ==> OccursAt(s[1..], pat, j - 1)
  {
    forall i | OccursAt(s[1..], pat, i)
      ensures OccursAt(s, pat, i + 1)
    {
      assert s[1..][i..i + |pat|] == s[i + 1..i + 1 + |pat|];
    }
    forall j | OccursAt(s, pat, j) && j >= 1
      ensures OccursAt(s[1..], pat, j - 1)
    {
      assert s[1..][j - 1..j - 1 + |pat|] == s[j..j + |pat|];
    }
  }

  /** strings.Contains. */
  predicate Contains(s: string, pat: string) {
    Index(s, pat) >= 0
  }

  /** A one-character pattern occurs exactly where that character stands. */
  lemma OccursAtChar(s: string, c: char, i: int)
    ensures OccursAt(s, [c], i) <==> 0 <= i < |s| && s[i] == c
  {
    if 0 <= i < |s| {
      assert s[i..i + 1] == [s[i]];
    }
  }

  /** Before the first occurrence of a one-character pattern that character does not appear. */
  lemma CharBeforeIndex(s: string, c: char)
    ensures Index(s, [c]) == -1 ==> c !in s
    ensures Index(s, [c]) >= 0 ==> s[Index(s, [c])] == c && c !in s[..Index(s, [c])]
  {
    var r := Index(s, [c]);
    IndexSpec(s, [c]);
    var stop := if r == -1 then |s| else r;
    forall j | 0 <= j < stop
      ensures s[j] != c
    {
      OccursAtChar(s, c, j);
    }
    if r >= 0 {
      OccursAtChar(s, c, r);
    }
  }

  // ---------------------------------------------------------------------------
  // Replacing

  /** strings.ReplaceAll for a non-empty pattern: every leftmost, non-overlapping
      occurrence of `pat`, scanning left to right, is replaced by `rep`. */
  function ReplaceAll(s: string, pat: string, rep: string): string
    requires pat != []
    decreases |s|
  {
    var i := Index(s, pat);
    if i < 0 then s else s[..i] + rep + ReplaceAll(s[i + |pat|..], pat, rep)
  }

  /** A character in neither the text nor the replacement is not in the result. */
  lemma {:induction false} ReplaceAllKeepsAbsent(s: string, pat: string, rep: string, c: char)
    requires pat != [] && c !in s && c !in rep
    ensures c !in ReplaceAll(s, pat, rep)
    decreases |s|
  {
    var i := Index(s, pat);
    if i >= 0 {
      var rest := s[i + |pat|..];
      AroundIndex(s, pat);
      ReplaceAllKeepsAbsent(rest, pat, rep, c);
    }
  }

  /** strings.Split: the text between the leftmost non-overlapping occurrences of `sep`. */
  function Split(s: string, sep: string): (ps: seq<string>)
    requires sep != []
    ensures |ps| >= 1
    decreases |s|
  {
    var i := Index(s, sep);
    if i < 0 then [s] else [s[..i]] + Split(s[i + |sep|..], sep)
  }

  /** strings.Join. */
  function Join(ps: seq<string>, sep: string): string {
    if |ps| == 0 then ""
    else if |ps| == 1 then ps[0]
    else ps[0] + sep + Join(ps[1..], sep)
  }

  /** Joining a piece in front of further pieces. */
  lemma JoinCons(a: string, ps: seq<string>, sep: string)
    requires ps != []
    ensures Join([a] + ps, sep) == a + sep + Join(ps, sep)
  {
    assert ([a] + ps)[1..] == ps;
  }

  /** Joining the pieces with the separator gives back the text. */
  lemma {:induction false} SplitJoin(s: string, sep: string)
    requires sep != []
    ensures Join(Split(s, sep), sep) == s
    decreases |s|
  {
    var i := Index(s, sep);
    if i >= 0 {
      var rest := s[i + |sep|..];
      var ps := Split(rest, sep);
      SplitJoin(rest, sep);
      AroundIndex(s, sep);
      assert Split(s, sep) == [s[..i]] + ps;
      JoinCons(s[..i], ps, sep);
    }
  }

  /** The text up to the leftmost occurrence, followed by the pattern, has
      that occurrence as its own leftmost one. */
  lemma LeftmostHead(s: string, sep: string)
    requires sep != [] && Index(s, sep) >= 0
    ensures Index(s[..Index(s, sep)] + sep, sep) == Index(s, sep)
  {
    var i := Index(s, sep);
    IndexSpec(s, sep);
    var head := s[..i] + sep;
    assert head == s[..i + |sep|];
    forall j | 0 <= j < i
      ensures !OccursAt(head, sep, j)
    {
      if OccursAt(head, sep, j) {
        OccursInPrefix(s, i + |sep|, sep, j);
      }
    }
    assert OccursAt(head, sep, i);
    IndexSpec(head, sep);
  }

  /** Every piece but the last is followed by the leftmost occurrence of the
      separator that starts in or after it, and the last piece holds none. */
  lemma {:induction false} SplitLeftmost(s: string, sep: string)
    requires sep != []
    ensures var ps := Split(s, sep);
      && (forall k :: 0 <= k < |ps| - 1 ==> Index(ps[k] + sep, sep) == |ps[k]|)
      && !Contains(ps[|ps| - 1], sep)
    decreases |s|
  {
    var i := Index(s, sep);
    if i >= 0 {
      var rest := s[i + |sep|..];
      var tail := Split(rest, sep);
      SplitLeftmost(rest, sep);
      LeftmostHead(s, sep);
      var ps := Split(s, sep);
      assert ps == [s[..i]] + tail;
      forall k | 0 <= k < |ps| - 1
        ensures Index(ps[k] + sep, sep) == |ps[k]|
      {
        if k > 0 {
          assert ps[k] == tail[k - 1];
        }
      }
      assert ps[|ps| - 1] == tail[|tail| - 1];
    }
  }

  /** ReplaceAll keeps the text between occurrences and swaps each occurrence
      for the replacement. */
  lemma {:induction false} ReplaceAllIsJoinOfSplit(s: string, pat: string, rep: string)
    requires pat != []
    ensures ReplaceAll(s, pat, rep) == Join(Split(s, pat), rep)
    decreases |s|
  {
    var i := Index(s, pat);
    if i >= 0 {
      var rest := s[i + |pat|..];
      ReplaceAllIsJoinOfSplit(rest, pat, rep);
      assert Split(s, pat) == [s[..i]] + Split(rest, pat);
      JoinCons(s[..i], Split(rest, pat), rep);
    }
  }

  /** `s` with every occurrence of `c` removed. */
  function Without(s: string, c: char): (r: string)
    ensures c !in r
  {
    if s == [] then []
    else if s[0] == c then Without(s[1..], c)
    else [s[0]] + Without(s[1..], c)
  }

  lemma {:induction false} WithoutAppend(a: string, b: string, c: char)
    ensures Without(a + b, c) == Without(a, c) + Without(b, c)
    decreases |a|
  {
    if a == [] {
      assert a + b == b;
    } else {
      var ab := a + b;
      assert ab[0] == a[0];
      assert ab[1..] == a[1..] + b;
      WithoutAppend(a[1..], b, c);
      var rest := Without(a[1..], c) + Without(b, c);
      assert Without(ab, c) == (if a[0] == c then [] else [a[0]]) + rest;
      assert Without(a, c) == (if a[0] == c then [] else [a[0]]) + Without(a[1..], c);
    }
  }

  lemma {:induction false} WithoutAbsent(s: string, c: char)
    requires c !in s
    ensures Without(s, c) == s
    decreases |s|
  {
    if s != [] {
      WithoutAbsent(s[1..], c);
    }
  }

  /** One step of ReplaceAll: the text before the leftmost occurrence, the
      replacement, then the rest of the text replaced. */
  lemma ReplaceAllStep(s: string, pat: string, rep: string)
    requires pat != [] && Index(s, pat) >= 0
    ensures ReplaceAll(s, pat, rep) == s[..Index(s, pat)] + rep + ReplaceAll(s[Index(s, pat) + |pat|..], pat, rep)
  {
  }

  /** Removing a character that first appears at `i`. */
  lemma WithoutAt(s: string, c: char, i: nat)
    requires i < |s| && s[i] == c && c !in s[..i]
    ensures Without(s, c) == s[..i] + Without(s[i + 1..], c)
  {
    assert s == s[..i] + s[i..];
    WithoutAppend(s[..i], s[i..], c);
    WithoutAbsent(s[..i], c);
    assert s[i..][1..] == s[i + 1..];
  }

  /** Replacing a one-character pattern by nothing deletes that character. */
  lemma {:induction false} ReplaceAllDeletesChar(s: string, c: char)
    ensures ReplaceAll(s, [c], "") == Without(s, c)
    decreases |s|
  {
    var i := Index(s, [c]);
    CharBeforeIndex(s, c);
    if i < 0 {
      WithoutAbsent(s, c);
    } else {
      ReplaceAllStep(s, [c], "");
      WithoutAt(s, c, i);
      ReplaceAllDeletesChar(s[i + 1..], c);
      assert s[..i] + "" == s[..i];
    }
  }

  // ---------------------------------------------------------------------------
  // bufio.Scanner with the ScanLines split function

  /** ScanLines drops one carriage return at the end of a line. */
  function DropCR(line: string): string {
    if |line| > 0 && line[|line| - 1] == '\r' then line[..|line| - 1] else line
  }

  /** The lines a Scanner yields: the text is cut at each newline, a trailing
      newline yields no empty last line, and no line holds a newline. */
  function Lines(s: string): (ls: seq<string>)
    ensures forall k :: 0 <= k < |ls| ==> '\n' !in ls[k]
    decreases |s|
  {
    if s == [] then []
    else
      var i := Index(s, "\n");
      CharBeforeIndex(s, '\n');
      if i < 0 then [DropCR(s)] else [DropCR(s[..i])] + Lines(s[i + 1..])
  }

  /** Each line followed by a newline, concatenated. */
  function Terminated(ls: seq<string>): string {
    if ls == [] then "" else ls[0] + "\n" + Terminated(ls[1..])
  }

  lemma {:induction false} TerminatedSnoc(ls: seq<string>, line: string)
    ensures Terminated(ls + [line]) == Terminated(ls) + line + "\n"
    decreases |ls|
  {
    if ls != [] {
      assert (ls + [line])[1..] == ls[1..] + [line];
      TerminatedSnoc(ls[1..], line);
    }
  }

  /** The first line of a text without carriage returns is the text up to
      its first newline, and the rest is scanned on from after it. */
  lemma LinesStep(s: string)
    requires '\r' !in s && Index(s, "\n") >= 0
    ensures var i := Index(s, "\n");
      Terminated(Lines(s)) == s[..i] + "\n" + Terminated(Lines(s[i + 1..]))
  {
    var i := Index(s, "\n");
    var rest := s[i + 1..];
    assert DropCR(s[..i]) == s[..i] by {
      if i > 0 {
        assert s[..i][i - 1] == s[i - 1];
      }
    }
    var ls := [s[..i]] + Lines(rest);
    assert Lines(s) == ls;
    assert ls[1..] == Lines(rest);
  }

  /** A text without carriage returns that ends in a newline: the text
      after its first newline is one too. */
  lemma ClosedRest(s: string)
    requires '\r' !in s && s != [] && s[|s| - 1] == '\n'
    ensures Index(s, "\n") >= 0
    ensures var rest := s[Index(s, "\n") + 1..];
      && '\r' !in rest && (rest == [] || rest[|rest| - 1] == '\n')
      && s == s[..Index(s, "\n")] + "\n" + rest
  {
    CharBeforeIndex(s, '\n');
    AroundIndex(s, "\n");
  }

  /** A text without carriage returns that is empty or ends in a newline is
      exactly its lines, each followed by a newline. */
  lemma {:induction false} LinesRoundTrip(s: string)
    requires '\r' !in s
    requires s == [] || s[|s| - 1] == '\n'
    ensures Terminated(Lines(s)) == s
    decreases |s|
  {
    if s != [] {
      ClosedRest(s);
      LinesStep(s);
      var i := Index(s, "\n");
      var rest := s[i + 1..];
      LinesRoundTrip(rest);
      assert Terminated(Lines(s)) == s[..i] + "\n" + rest;
    }
  }

  /** A text without carriage returns whose last character is not a newline:
      the text after its first newline is one too. */
  lemma OpenRest(s: string)
    requires '\r' !in s && s != [] && s[|s| - 1] != '\n' && Index(s, "\n") >= 0
    ensures var rest := s[Index(s, "\n") + 1..];
      '\r' !in rest && rest != [] && rest[|rest| - 1] != '\n'
  {
    var i := Index(s, "\n");
    CharBeforeIndex(s, '\n');
    assert i < |s| - 1;
  }

  /** Appending a newline to a text that has one appends it to the text after
      the first newline. */
  lemma NewlineRegroup(s: string)
    requires Index(s, "\n") >= 0
    ensures s + "\n" == s[..Index(s, "\n")] + "\n" + (s[Index(s, "\n") + 1..] + "\n")
  {
    AroundIndex(s, "\n");
    var i := Index(s, "\n");
    assert s[..i] + "\n" + s[i + 1..] + "\n" == s[..i] + "\n" + (s[i + 1..] + "\n");
  }

  /** A non-empty text without newlines or carriage returns is one line. */
  lemma SingleLine(s: string)
    requires '\r' !in s && s != [] && Index(s, "\n") < 0
    ensures Terminated(Lines(s)) == s + "\n"
  {
    assert Lines(s) == [DropCR(s)];
    assert DropCR(s) == s;
    assert Terminated([s]) == s + "\n" + Terminated([]);
  }

  /** A text without carriage returns whose last line has no newline reads
      back as its lines, each followed by a newline: the scanner yields the
      unterminated last line too. */
  lemma {:induction false} LinesRoundTripOpen(s: string)
    requires '\r' !in s
    requires s != [] && s[|s| - 1] != '\n'
    ensures Terminated(Lines(s)) == s + "\n"
    decreases |s|
  {
    if Index(s, "\n") < 0 {
      SingleLine(s);
    } else {
      OpenRest(s);
      NewlineRegroup(s);
      LinesStep(s);
      LinesRoundTripOpen(s[Index(s, "\n") + 1..]);
    }
  }

  /** DropCR applied to each piece. */
  function DropCRs(ps: seq<string>): (r: seq<string>)
    ensures |r| == |ps|
  {
    if ps == [] then [] else [DropCR(ps[0])] + DropCRs(ps[1..])
  }

  /** The pieces a Scanner turns into lines: an empty last piece, left by a
      final newline or by empty text, yields no line. */
  function ScannedPieces(ps: seq<string>): seq<string>
    requires |ps| >= 1
  {
    if ps[|ps| - 1] == "" then ps[..|ps| - 1] else ps
  }

  /** The lines are the pieces between newlines, an empty last piece dropped,
      each with one trailing carriage return removed. */
  lemma {:induction false} LinesAreSplitPieces(s: string)
    ensures Lines(s) == DropCRs(ScannedPieces(Split(s, "\n")))
    decreases |s|
  {
    var i := Index(s, "\n");
    if s == [] {
    } else if i < 0 {
      assert Split(s, "\n") == [s];
    } else {
      var rest := s[i + 1..];
      var ps := Split(rest, "\n");
      LinesAreSplitPieces(rest);
      assert Split(s, "\n") == [s[..i]] + ps;
      if ps[|ps| - 1] == "" {
        assert ScannedPieces([s[..i]] + ps) == [s[..i]] + ps[..|ps| - 1];
        assert ([s[..i]] + ps[..|ps| - 1])[1..] == ps[..|ps| - 1];
      } else {
        assert ScannedPieces([s[..i]] + ps) == [s[..i]] + ps;
        assert ([s[..i]] + ps)[1..] == ps;
      }
    }
  }

  // ---------------------------------------------------------------------------
  // fmt.Sscanf(input, "%s", &token)

  /** The space characters of fmt's scanner. */
  predicate IsSpace(c: char) {
    (0x09 <= c as int <= 0x0d) || c == ' ' || c as int == 0x85 || c as int == 0xa0
    || c as int == 0x1680 || (0x2000 <= c as int <= 0x200a) || c as int == 0x2028
    || c as int == 0x2029 || c as int == 0x202f || c as int == 0x205f || c as int == 0x3000
  }

  /** Characters Sscanf skips before a token: spaces other than a newline,
      since Sscanf reports a newline in the input where its format has none. */
  predicate Blank(c: char) {
    IsSpace(c) && c != '\n'
  }

  /** `input` is blanks up to position `p`, then the token `t`: a non-empty run
      of non-space characters ending at a space or at the end of the input. */
  predicate ScansTo(input: string, p: int, t: string) {
    && 0 <= p && p + |t| <= |input|
    && (forall q :: 0 <= q < p ==> Blank(input[q]))
    && input[p..p + |t|] == t
    && t != []
    && (forall j :: 0 <= j < |t| ==> !IsSpace(t[j]))
    && (p + |t| == |input| || IsSpace(input[p + |t|]))
  }

  /** The first position at or after `from` that is not a blank. */
  function SkipBlanks(input: string, from: nat): (p: nat)
    requires from <= |input|
    ensures from <= p <= |input|
    ensures forall q :: from <= q < p ==> Blank(input[q])
    ensures p < |input| ==> !Blank(input[p])
    decreases |input| - from
  {
    if from == |input| || !Blank(input[from]) then from else SkipBlanks(input, from + 1)
  }

  /** The first position at or after `from` that holds a space. */
  function TokenEnd(input: string, from: nat): (e: nat)
    requires from <= |input|
    ensures from <= e <= |input|
    ensures forall q :: from <= q < e ==> !IsSpace(input[q])
    ensures e < |input| ==> IsSpace(input[e])
    decreases |input| - from
  {
    if from == |input| || IsSpace(input[from]) then from else TokenEnd(input, from + 1)
  }

  /** Sscanf with the single verb `%s`: it fails on a newline or the end of the
      input before the token (the latter is io.EOF, whose text is `EOF`), and
      otherwise yields the first word. */
  function ScanString(input: string): (r: Result<string>)
    ensures r.Success? ==> exists p :: ScansTo(input, p, r.value)
    ensures forall p, t :: ScansTo(input, p, t) ==> r == Success(t)
  {
    var p := SkipBlanks(input, 0);
    if p == |input| then
      ScansNothing(input, p);
      Failure("EOF")
    else if input[p] == '\n' then
      ScansNothing(input, p);
      Failure("unexpected newline")
    else
      var e := TokenEnd(input, p);
      assert input[p..e][0] == input[p];
      ScansUnique(input, p, e);
      Success(input[p..e])
  }

  /** Sscanf fails with `EOF` exactly when the input is all blanks, and with
      `unexpected newline` exactly when a newline comes after only blanks. */
  lemma ScanFailures(input: string)
    ensures ScanString(input) == Failure("EOF") <==> forall q :: 0 <= q < |input| ==> Blank(input[q])
    ensures ScanString(input) == Failure("unexpected newline") <==>
      exists p :: 0 <= p < |input| && input[p] == '\n' && forall q :: 0 <= q < p ==> Blank(input[q])
  {
    var p := SkipBlanks(input, 0);
    if p < |input| && input[p] == '\n' {
      assert !Blank(input[p]);
    }
    forall p' | 0 <= p' < |input| && input[p'] == '\n' && (forall q :: 0 <= q < p' ==> Blank(input[q]))
      ensures p' == p
    {
      assert !Blank(input[p']);
    }
  }

  /** A token starts at a non-space and is made of non-spaces. */
  lemma ScansToFacts(input: string)
    ensures forall p, t :: ScansTo(input, p, t) ==>
      p < |input| && !IsSpace(input[p]) && forall q :: p <= q < p + |t| ==> !IsSpace(input[q])
  {
    forall p, t | ScansTo(input, p, t)
      ensures p < |input| && !IsSpace(input[p]) && forall q :: p <= q < p + |t| ==> !IsSpace(input[q])
    {
      forall q | p <= q < p + |t|
        ensures !IsSpace(input[q])
      {
        assert input[q] == t[q - p];
      }
    }
  }

  /** When the first non-blank is the end or a newline there is no token. */
  lemma ScansNothing(input: string, p: nat)
    requires p <= |input|
    requires forall q :: 0 <= q < p ==> Blank(input[q])
    requires p == |input| || input[p] == '\n'
    ensures forall p', t :: !ScansTo(input, p', t)
  {
    ScansToFacts(input);
  }

  /** The blanks-then-word split of an input is unique. */
  lemma ScansUnique(input: string, p: nat, e: nat)
    requires p <= e <= |input|
    requires forall q :: 0 <= q < p ==> Blank(input[q])
    requires p < |input| && !IsSpace(input[p])
    requires forall q :: p <= q < e ==> !IsSpace(input[q])
    requires e < |input| ==> IsSpace(input[e])
    ensures ScansTo(input, p, input[p..e])
    ensures forall p', t :: ScansTo(input, p', t) ==> p' == p && t == input[p..e]
  {
    ScansToFacts(input);
    forall p', t | ScansTo(input, p', t)
      ensures p' == p && t == input[p..e]
    {
      assert p' == p;
      assert p' + |t| == e;
    }
  }
}
