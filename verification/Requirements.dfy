// Project names and requirement strings of
// scripts/check_dependency_compatibility.py, and the merge of the declarations of
// all extras. Names follow PEP 503, "Normalized Names".
module Requirements {
  import opened Options
  import opened Text

  // ---- Names ----

  predicate IsSeparator(c: char) { c == '-' || c == '_' || c == '.' }

  function SkipSeparators(name: string): (rest: string)
    ensures |rest| <= |name| && (rest != [] ==> !IsSeparator(rest[0]))
  {
    if name != [] && IsSeparator(name[0]) then SkipSeparators(name[1..]) else name
  }

  // Every run of separators becomes one hyphen.
  function Collapse(name: string): string
    decreases |name|
  {
    if name == [] then ""
    else if IsSeparator(name[0]) then "-" + Collapse(SkipSeparators(name[1..]))
    else [name[0]] + Collapse(name[1..])
  }

  function NormalizedName(name: string): string {
    Lower(Collapse(name))
  }

  // Lower case, no other separator than a hyphen, no two hyphens in a row.
  ghost predicate IsNormalizedName(name: string) {
    && (forall i :: 0 <= i < |name| ==> name[i] != '_' && name[i] != '.' && !('A' <= name[i] <= 'Z'))
    && (forall i :: 0 <= i < |name| - 1 ==> !(name[i] == '-' && name[i + 1] == '-'))
  }

  // Two names denote one project: separator runs correspond to separator runs and
  // other characters agree up to case.
  predicate SameProject(a: string, b: string)
    decreases |a|
  {
    if a == [] || b == [] then a == b
    else if IsSeparator(a[0]) || IsSeparator(b[0]) then
      IsSeparator(a[0]) && IsSeparator(b[0]) && SameProject(SkipSeparators(a[1..]), SkipSeparators(b[1..]))
    else LowerChar(a[0]) == LowerChar(b[0]) && SameProject(a[1..], b[1..])
  }

  lemma NormalizedNameSteps(name: string)
    requires name != []
    ensures IsSeparator(name[0]) ==> NormalizedName(name) == "-" + NormalizedName(SkipSeparators(name[1..]))
    ensures !IsSeparator(name[0]) ==> NormalizedName(name) == [LowerChar(name[0])] + NormalizedName(name[1..])
  {
    if IsSeparator(name[0]) {
      assert NormalizedName(name) == "-" + NormalizedName(SkipSeparators(name[1..]));
    } else {
      assert NormalizedName(name) == [LowerChar(name[0])] + NormalizedName(name[1..]);
    }
  }

  lemma {:induction false} NormalizedNameIsNormal(name: string)
    ensures IsNormalizedName(NormalizedName(name))
    ensures name != [] ==> NormalizedName(name) != [] && (NormalizedName(name)[0] == '-' <==> IsSeparator(name[0]))
    decreases |name|
  {
    if name != [] {
      NormalizedNameSteps(name);
      NormalizedNameIsNormal(if IsSeparator(name[0]) then SkipSeparators(name[1..]) else name[1..]);
    }
  }

  lemma {:induction false} NormalNameIsFixed(name: string)
    requires IsNormalizedName(name)
    ensures NormalizedName(name) == name
    decreases |name|
  {
    if name != [] {
      NormalizedNameSteps(name);
      NormalNameIsFixed(name[1..]);
      assert name == [name[0]] + name[1..];
    }
  }

  // Normalising is idempotent, and two names normalise alike exactly when they
  // denote the same project.
  lemma NormalizedNameTwice(name: string)
    ensures NormalizedName(NormalizedName(name)) == NormalizedName(name)
  {
    NormalizedNameIsNormal(name);
    NormalNameIsFixed(NormalizedName(name));
  }

  lemma {:induction false} NormalizedAlike(a: string, b: string)
    ensures NormalizedName(a) == NormalizedName(b) <==> SameProject(a, b)
    decreases |a|
  {
    NormalizedNameIsNormal(a);
    NormalizedNameIsNormal(b);
    if a != [] && b != [] {
      NormalizedNameSteps(a);
      NormalizedNameSteps(b);
      if IsSeparator(a[0]) && IsSeparator(b[0]) {
        NormalizedAlike(SkipSeparators(a[1..]), SkipSeparators(b[1..]));
        SameTail('-', NormalizedName(SkipSeparators(a[1..])), '-', NormalizedName(SkipSeparators(b[1..])));
      } else if !IsSeparator(a[0]) && !IsSeparator(b[0]) {
        NormalizedAlike(a[1..], b[1..]);
        SameTail(LowerChar(a[0]), NormalizedName(a[1..]), LowerChar(b[0]), NormalizedName(b[1..]));
      }
    }
  }

  lemma SameTail(c: char, a: string, d: char, b: string)
    ensures [c] + a == [d] + b <==> c == d && a == b
  {
    assert ([c] + a)[0] == c && ([d] + b)[0] == d && ([c] + a)[1..] == a && ([d] + b)[1..] == b;
  }

  // ---- Requirement strings ----

  datatype Range = Range(minimum: string, upper: Option<string>)

  datatype Requirement = Requirement(name: string, range: Range)

  predicate IsNameChar(c: char) {
    'A' <= c <= 'Z' || 'a' <= c <= 'z' || '0' <= c <= '9' || IsSeparator(c)
  }

  predicate IsVersionChar(c: char) { '0' <= c <= '9' || c == '.' }

  // The length of the longest prefix of characters of one class.
  function Span(text: string, inClass: char -> bool): (n: nat)
    ensures n <= |text|
    ensures forall i :: 0 <= i < n ==> inClass(text[i])
    ensures n < |text| ==> !inClass(text[n])
  {
    if text != [] && inClass(text[0]) then 1 + Span(text[1..], inClass) else 0
  }

  // REQUIREMENT_RE.fullmatch, then the three groups. None: "unsupported
  // dependency declaration".
  function ParseRequirement(text: string): Option<Requirement> {
    var n := Span(text, IsNameChar);
    if n == 0 || !OccursAt(text, ">=", n) then None
    else match ParseRange(text[n + 2..])
      case None => None
      case Some(range) => Some(Requirement(NormalizedName(text[..n]), range))
  }

  function ParseRange(text: string): Option<Range> {
    var m := Span(text, IsVersionChar);
    if m == 0 then None
    else if m == |text| then Some(Range(text, None))
    else if !OccursAt(text, ",<", m) then None
    else
      var upper := text[m + 2..];
      if upper == [] || Span(upper, IsVersionChar) != |upper| then None
      else Some(Range(text[..m], Some(upper)))
  }

  ghost predicate AllIn(text: string, inClass: char -> bool) {
    text != [] && forall i :: 0 <= i < |text| ==> inClass(text[i])
  }

  ghost predicate IsRange(range: Range) {
    AllIn(range.minimum, IsVersionChar) && (range.upper.Some? ==> AllIn(range.upper.value, IsVersionChar))
  }

  function PrintRange(range: Range): string {
    range.minimum + if range.upper.None? then "" else ",<" + range.upper.value
  }

  function PrintRequirement(name: string, range: Range): string {
    name + ">=" + PrintRange(range)
  }

  lemma SpanOf(front: string, back: string, inClass: char -> bool)
    requires forall i :: 0 <= i < |front| ==> inClass(front[i])
    requires back != [] ==> !inClass(back[0])
    ensures Span(front + back, inClass) == |front|
  {
    var text := front + back;
    assert forall i :: 0 <= i < |front| ==> text[i] == front[i];
    assert forall i :: 0 <= i < |back| ==> text[|front| + i] == back[i];
  }

  lemma PartsOf(front: string, mark: string, back: string)
    ensures (front + (mark + back))[..|front|] == front
    ensures (front + (mark + back))[|front|..|front| + |mark|] == mark
    ensures (front + (mark + back))[|front| + |mark|..] == back
  {
    var text := front + (mark + back);
    assert forall i :: 0 <= i < |back| ==> text[|front| + |mark| + i] == back[i];
  }

  lemma ParsePrintedRange(range: Range)
    requires IsRange(range)
    ensures ParseRange(PrintRange(range)) == Some(range)
  {
    var text := PrintRange(range);
    if range.upper.None? {
      assert text == range.minimum + "" == range.minimum;
      assert range == Range(text, None);
      SpanOf(range.minimum, "", IsVersionChar);
    } else {
      var tail := ",<" + range.upper.value;
      SpanOf(range.minimum, tail, IsVersionChar);
      SpanOf(range.upper.value, "", IsVersionChar);
      assert range.upper.value + "" == range.upper.value;
      PartsOf(range.minimum, ",<", range.upper.value);
      assert range == Range(range.minimum, Some(range.upper.value));
    }
  }

  lemma ParsedRangePrints(text: string)
    ensures ParseRange(text).Some? ==> IsRange(ParseRange(text).value) && PrintRange(ParseRange(text).value) == text
  {
    var m := Span(text, IsVersionChar);
    if m != 0 && m != |text| && OccursAt(text, ",<", m) {
      assert text == text[..m] + (",<" + text[m + 2..]);
    }
  }

  // Parsing accepts exactly the printed requirements, and returns the normalised
  // name and the range they were printed from.
  lemma ParseInvertsPrint(name: string, range: Range)
    requires AllIn(name, IsNameChar) && IsRange(range)
    ensures ParseRequirement(PrintRequirement(name, range)) == Some(Requirement(NormalizedName(name), range))
  {
    var text, tail := PrintRequirement(name, range), ">=" + PrintRange(range);
    assert text == name + tail;
    SpanOf(name, tail, IsNameChar);
    ParsePrintedRange(range);
    PartsOf(name, ">=", PrintRange(range));
  }

  ghost predicate IsPrinted(text: string, name: string, range: Range) {
    AllIn(name, IsNameChar) && IsRange(range) && text == PrintRequirement(name, range)
  }

  lemma ParsedIsPrinted(text: string)
    requires ParseRequirement(text).Some?
    ensures exists name, range :: IsPrinted(text, name, range)
  {
    var n := Span(text, IsNameChar);
    var name, rest := text[..n], text[n + 2..];
    ParsedRangePrints(rest);
    assert text == name + ">=" + rest;
    assert IsPrinted(text, name, ParseRange(rest).value);
  }

  lemma ParseAccepts(text: string)
    ensures ParseRequirement(text).Some? <==> exists name, range :: IsPrinted(text, name, range)
  {
    if name, range :| IsPrinted(text, name, range) {
      ParseInvertsPrint(name, range);
    }
    if ParseRequirement(text).Some? {
      ParsedIsPrinted(text);
    }
  }

  // ---- What a name becomes ----

  ghost predicate HasNoSeparator(name: string) {
    forall i :: 0 <= i < |name| ==> !IsSeparator(name[i])
  }

  lemma {:induction false} PlainNameIsLowered(name: string)
    requires HasNoSeparator(name)
    ensures Collapse(name) == name && NormalizedName(name) == Lower(name)
  {
    if name != [] {
      assert HasNoSeparator(name[1..]);
      PlainNameIsLowered(name[1..]);
      assert name == [name[0]] + name[1..];
    }
  }

  lemma {:induction false} RunIsSkipped(separators: string, rest: string)
    requires forall i :: 0 <= i < |separators| ==> IsSeparator(separators[i])
    requires rest != [] ==> !IsSeparator(rest[0])
    ensures SkipSeparators(separators + rest) == rest
  {
    if separators == [] {
      assert separators + rest == rest;
    } else {
      assert (separators + rest)[1..] == separators[1..] + rest;
      RunIsSkipped(separators[1..], rest);
    }
  }

  lemma {:induction false} CollapseSplits(part: string, separators: string, rest: string)
    requires HasNoSeparator(part) && separators != []
    requires forall i :: 0 <= i < |separators| ==> IsSeparator(separators[i])
    requires rest != [] ==> !IsSeparator(rest[0])
    ensures Collapse(part + separators + rest) == part + "-" + Collapse(rest)
  {
    var whole := part + separators + rest;
    if part == [] {
      assert whole == separators + rest && whole[1..] == separators[1..] + rest;
      RunIsSkipped(separators[1..], rest);
    } else {
      assert HasNoSeparator(part[1..]);
      assert whole[1..] == part[1..] + separators + rest;
      CollapseSplits(part[1..], separators, rest);
    }
  }

  // A run of separators becomes one hyphen, and the parts are lowered.
  lemma NormalizedNameSplits(part: string, separators: string, rest: string)
    requires HasNoSeparator(part) && separators != []
    requires forall i :: 0 <= i < |separators| ==> IsSeparator(separators[i])
    requires rest != [] ==> !IsSeparator(rest[0])
    ensures NormalizedName(part + separators + rest) == Lower(part) + "-" + NormalizedName(rest)
  {
    CollapseSplits(part, separators, rest);
    var collapsed := part + "-" + Collapse(rest);
    assert Lower(collapsed) == Lower(part) + "-" + Lower(Collapse(rest));
  }

  // A name the project declares.
  lemma NameOfPyYaml()
    ensures NormalizedName("PyYAML") == "pyyaml"
  {
    PlainNameIsLowered("PyYAML");
    assert Lower("PyYAML") == "pyyaml";
  }
}
