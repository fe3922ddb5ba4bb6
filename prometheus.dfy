/** The text steps of the generator that embeds the Prometheus operator
    manifest in Go source: backticks are stripped, the operator is moved from
    the `default` namespace to `monitoring`, the name of its Deployment is read
    out of the manifest, and the text is wrapped as a raw string literal.
    A `panic` of the generator is a `Failure` here. */
module PrometheusGenerator {
  import opened Wrappers
  import opened GoStrings

  /** The namespace the operator is moved to. */
  const NamespaceName: string := "monitoring"

  const DefaultNamespace: string := "namespace: default"

  const MonitoringNamespace: string := "namespace: " + NamespaceName

  /** What getDeploymentName looks for in the Deployment section. */
  const NameField: string := "name:"

  const Backtick: char := '`'

  // ---------------------------------------------------------------------------
  // changeNamespace

  /** Fails when the manifest never mentions the default namespace; otherwise
      every occurrence, taken leftmost and non-overlapping, becomes the
      monitoring namespace and the text in between is kept. */
  function ChangeNamespace(content: string): (r: Result<string>)
    ensures r.Failure? <==> !Contains(content, DefaultNamespace)
    ensures r.Success? ==> r.value == Join(Split(content, DefaultNamespace), MonitoringNamespace)
  {
    if Index(content, DefaultNamespace) == -1 then
      Failure("did not find namespace: default")
    else
      ReplaceAllIsJoinOfSplit(content, DefaultNamespace, MonitoringNamespace);
      Success(ReplaceAll(content, DefaultNamespace, MonitoringNamespace))
  }

  /** The manifest is the kept pieces joined by the default namespace, the
      result is the same pieces joined by the monitoring namespace, and the
      text after the last replaced occurrence holds no further one. */
  lemma ChangeNamespaceRewrites(content: string)
    requires Contains(content, DefaultNamespace)
    ensures var ps := Split(content, DefaultNamespace);
      && content == Join(ps, DefaultNamespace)
      && ChangeNamespace(content) == Success(Join(ps, MonitoringNamespace))
      && !Contains(ps[|ps| - 1], DefaultNamespace)
  {
    SplitJoin(content, DefaultNamespace);
    SplitLeftmost(content, DefaultNamespace);
  }

  // ---------------------------------------------------------------------------
  // getKindSection

  /** The first line at or after `from` that contains `pat`, or |lines|. */
  function FirstContaining(lines: seq<string>, pat: string, from: nat): (k: nat)
    requires from <= |lines|
    ensures from <= k <= |lines|
    ensures forall i :: from <= i < k ==> !Contains(lines[i], pat)
    ensures k < |lines| ==> Contains(lines[k], pat)
    decreases |lines| - from
  {
    if from == |lines| || Contains(lines[from], pat) then from
    else FirstContaining(lines, pat, from + 1)
  }

  /** The first line at or after `from` that is exactly `---`, or |lines|. */
  function FirstSeparator(lines: seq<string>, from: nat): (e: nat)
    requires from <= |lines|
    ensures from <= e <= |lines|
    ensures forall i :: from <= i < e ==> lines[i] != "---"
    ensures e < |lines| ==> lines[e] == "---"
    decreases |lines| - from
  {
    if from == |lines| || lines[from] == "---" then from
    else FirstSeparator(lines, from + 1)
  }

  /** The section of the manifest, given as its lines, that describes a
      resource of the given kind: its lines from the first one mentioning
      `kind: <kind>` through the next `---` line, or through the end when there
      is none. It is empty exactly when no line mentions the kind. */
  function KindSection(lines: seq<string>, kind: string): (r: string)
    ensures r == "" <==> forall i :: 0 <= i < |lines| ==> !Contains(lines[i], "kind: " + kind)
  {
    var k := FirstContaining(lines, "kind: " + kind, 0);
    if k == |lines| then ""
    else
      var e := FirstSeparator(lines, k);
      Terminated(lines[k..if e < |lines| then e + 1 else e])
  }

  /** The section is the run of lines from the first line mentioning the kind
      up to and including the first `---` line after it, each followed by a
      newline; without such a line it runs to the end. */
  lemma KindSectionRange(lines: seq<string>, kind: string, k: nat, e: nat)
    requires k < |lines| && Contains(lines[k], "kind: " + kind)
    requires forall i :: 0 <= i < k ==> !Contains(lines[i], "kind: " + kind)
    requires k <= e <= |lines|
    requires forall i :: k <= i < e ==> lines[i] != "---"
    requires e == |lines| || lines[e] == "---"
    ensures KindSection(lines, kind) == Terminated(lines[k..if e == |lines| then e else e + 1])
  {
    assert FirstContaining(lines, "kind: " + kind, 0) == k;
    assert FirstSeparator(lines, k) == e;
  }

  /** The section is a run of whole lines `lines[x..y]`, newline-terminated,
      and so the slice `[a..b]` of the lines' own newline-terminated text
      where `a` and `b` are the offsets at which lines `x` and `y` start. */
  lemma SectionIsSliceOfLines(lines: seq<string>, kind: string) returns (x: nat, y: nat, a: nat, b: nat)
    ensures x <= y <= |lines|
    ensures KindSection(lines, kind) == Terminated(lines[x..y])
    ensures a == |Terminated(lines[..x])| && b == |Terminated(lines[..y])|
    ensures a <= b <= |Terminated(lines)|
    ensures KindSection(lines, kind) == Terminated(lines)[a..b]
  {
    var k := FirstContaining(lines, "kind: " + kind, 0);
    if k == |lines| {
      x, y, a, b := 0, 0, 0, 0;
      assert lines[..0] == [];
    } else {
      var e := FirstSeparator(lines, k);
      var stop := if e < |lines| then e + 1 else e;
      var p, q, r := Terminated(lines[..k]), Terminated(lines[k..stop]), Terminated(lines[stop..]);
      ThreeParts(lines, k, stop);
      TerminatedSplit(lines[..k], lines[k..stop], lines[stop..]);
      assert lines[..stop] == lines[..k] + lines[k..stop];
      TerminatedAppend(lines[..k], lines[k..stop]);
      x, y, a, b := k, stop, |p|, |p| + |q|;
      MiddleSlice(p, q, r);
    }
  }

  /** The middle part of a three-part concatenation is its slice between the
      end of the first part and the start of the last. */
  lemma MiddleSlice(p: string, q: string, r: string)
    ensures (p + q + r)[|p|..|p| + |q|] == q
  {
    assert (p + q + r)[..|p| + |q|] == p + q;
  }

  /** For a manifest without carriage returns that ends in a newline, the
      section is a contiguous piece of the manifest text itself. */
  lemma KindSectionIsSlice(content: string, kind: string)
    requires '\r' !in content
    requires content == [] || content[|content| - 1] == '\n'
    ensures exists a, b :: 0 <= a <= b <= |content| && KindSection(Lines(content), kind) == content[a..b]
  {
    LinesRoundTrip(content);
    var x, y, a, b := SectionIsSliceOfLines(Lines(content), kind);
  }

  lemma {:induction false} TerminatedAppend(xs: seq<string>, ys: seq<string>)
    ensures Terminated(xs + ys) == Terminated(xs) + Terminated(ys)
    decreases |xs|
  {
    if xs == [] {
      assert xs + ys == ys;
    } else {
      assert (xs + ys)[1..] == xs[1..] + ys;
      TerminatedAppend(xs[1..], ys);
    }
  }

  lemma TerminatedSplit(xs: seq<string>, ys: seq<string>, zs: seq<string>)
    ensures Terminated(xs + ys + zs) == Terminated(xs) + Terminated(ys) + Terminated(zs)
  {
    TerminatedAppend(xs + ys, zs);
    TerminatedAppend(xs, ys);
  }

  /** Line `i` is at or after the first line containing `pat` exactly when
      an earlier line was, or this one contains it. */
  lemma FirstContainingAt(lines: seq<string>, pat: string, i: nat)
    requires i < |lines|
    ensures FirstContaining(lines, pat, 0) <= i <==> FirstContaining(lines, pat, 0) < i || Contains(lines[i], pat)
  {
  }

  /** Copying one more line extends the copied text by that line and a newline. */
  lemma CopyStep(lines: seq<string>, k: nat, i: nat)
    requires k <= i < |lines|
    ensures Terminated(lines[k..i + 1]) == Terminated(lines[k..i]) + lines[i] + "\n"
  {
    assert lines[k..i + 1] == lines[k..i] + [lines[i]];
    TerminatedSnoc(lines[k..i], lines[i]);
  }

  /** getKindSection: scans the manifest line by line, starts copying at the
      first line that mentions the kind and stops after the next `---` line. */
  method GetKindSection(content: string, kind: string) returns (section: string)
    ensures section == KindSection(Lines(content), kind)
  {
    var lines := Lines(content);
    var pat := "kind: " + kind;
    ghost var k := FirstContaining(lines, pat, 0);
    section := "";
    var copying := false;
    var i := 0;
    while i < |lines|
      invariant 0 <= i <= |lines|
      invariant copying <==> k < i
      invariant !copying ==> section == ""
      invariant copying ==> section == Terminated(lines[k..i])
      invariant forall j :: k <= j < i ==> lines[j] != "---"
    {
      var line := lines[i];
      FirstContainingAt(lines, pat, i);
      if Contains(line, pat) {
        copying := true;
      }
      if copying {
        CopyStep(lines, k, i);
        section := section + line + "\n";
        if line == "---" {
          KindSectionRange(lines, kind, k, i);
          return;
        }
      }
      i := i + 1;
    }
    if copying {
      KindSectionRange(lines, kind, k, |lines|);
    }
  }

  // ---------------------------------------------------------------------------
  // getDeploymentName

  /** The text after the first occurrence of `pat` in `s`. */
  function AfterFirst(s: string, pat: string): string
    requires Contains(s, pat)
  {
    s[Index(s, pat) + |pat|..]
  }

  /** The Deployment name: the first word after the first `name:` in the
      Deployment section, on the same line. Fails when the section has no
      `name:` or nothing but spaces follows it on its line. */
  function GetDeploymentName(content: string): (r: Result<string>)
    ensures var sec := KindSection(Lines(content), "Deployment");
      r.Success? <==> Contains(sec, NameField) && exists p, t :: ScansTo(AfterFirst(sec, NameField), p, t)
    ensures var sec := KindSection(Lines(content), "Deployment");
      r.Success? ==> exists p :: ScansTo(AfterFirst(sec, NameField), p, r.value)
    ensures r.Success? ==> r.value != [] && forall j :: 0 <= j < |r.value| ==> !IsSpace(r.value[j])
  {
    var sec := KindSection(Lines(content), "Deployment");
    if Index(sec, NameField) == -1 then
      Failure("did not find Deployment name")
    else
      ScanString(AfterFirst(sec, NameField))
  }

  // ---------------------------------------------------------------------------
  // generatePrometheus

  /** The manifest with every backtick removed, so that it can sit inside a
      Go raw string literal. */
  function StripBackticks(content: string): (r: string)
    ensures r == Without(content, Backtick)
    ensures Backtick !in r
  {
    ReplaceAllDeletesChar(content, Backtick);
    ReplaceAll(content, [Backtick], "")
  }

  /** The text wrapped as a raw string literal. */
  function Quote(content: string): (r: string)
    ensures |r| == |content| + 2 && r[0] == Backtick && r[|r| - 1] == Backtick
    ensures r[1..|r| - 1] == content
  {
    [Backtick] + content + [Backtick]
  }

  /** The values the generated Go file is rendered from. */
  datatype Info = Info(yaml: string, namespace: string, deployment: string, exportedName: string)

  /** The text steps of generatePrometheus, in order: strip backticks, change
      the namespace, read the Deployment name, quote the manifest. It fails
      when the backtick-free manifest never mentions the default namespace or
      the rewritten one names no Deployment. On success the literal holds the
      backtick-free manifest with every default namespace moved to
      `monitoring`, with backticks only at its two ends, and the Deployment
      name is a non-empty word without spaces. */
  function GenerateInfo(content: string, exportedName: string): (r: Result<Info>)
    ensures var rewritten := Join(Split(Without(content, Backtick), DefaultNamespace), MonitoringNamespace);
      r.Failure? <==> !Contains(Without(content, Backtick), DefaultNamespace) || GetDeploymentName(rewritten).Failure?
    ensures r.Success? ==>
      && r.value.yaml == Quote(Join(Split(Without(content, Backtick), DefaultNamespace), MonitoringNamespace))
      && Backtick !in r.value.yaml[1..|r.value.yaml| - 1]
      && r.value.deployment == GetDeploymentName(Join(Split(Without(content, Backtick), DefaultNamespace), MonitoringNamespace)).value
      && r.value.deployment != []
      && (forall j :: 0 <= j < |r.value.deployment| ==> !IsSpace(r.value.deployment[j]))
      && r.value.namespace == "monitoring"
      && r.value.exportedName == exportedName
  {
    var stripped := StripBackticks(content);
    var changed :- ChangeNamespace(stripped);
    var deployment :- GetDeploymentName(changed);
    EmbeddedLiteralWellFormed(content);
    Success(Info(Quote(changed), NamespaceName, deployment, exportedName))
  }

  /** The embedded literal holds exactly two backticks, its first and last
      character, so the generated Go file parses. */
  lemma EmbeddedLiteralWellFormed(content: string)
    requires ChangeNamespace(StripBackticks(content)).Success?
    ensures var yaml := Quote(ChangeNamespace(StripBackticks(content)).value);
      && |yaml| >= 2 && yaml[0] == Backtick && yaml[|yaml| - 1] == Backtick
      && Backtick !in yaml[1..|yaml| - 1]
  {
    var stripped := StripBackticks(content);
    var changed := ChangeNamespace(stripped).value;
    assert Backtick !in MonitoringNamespace;
    ReplaceAllKeepsAbsent(stripped, DefaultNamespace, MonitoringNamespace, Backtick);
  }
}
