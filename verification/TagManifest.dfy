// The payload of a signed tag, as scripts/check_release_acceptance.py takes it
// apart: header, blank line, manifest, signature.
module TagManifest {
  import opened Options
  import opened Text

  const BLANK_LINE := "\n\n"
  const MARKER := "\n-----BEGIN SSH SIGNATURE-----\n"

  datatype Tag = Tag(header: string, manifest: string, signature: string)

  // Python's `partition`, without the separator.
  function Partition(text: string, separator: string): Option<(string, string)> {
    match Find(text, separator)
    case None => None
    case Some(i) => Some((text[..i], text[i + |separator|..]))
  }

  // None: "signed acceptance manifest is missing".
  function Split(payload: string): Option<Tag> {
    match Partition(payload, BLANK_LINE)
    case None => None
    case Some((header, message)) =>
      match Partition(message, MARKER)
      case None => None
      case Some((manifest, signature)) => Some(Tag(header, manifest, signature))
  }

  function Assemble(tag: Tag): string {
    tag.header + BLANK_LINE + (tag.manifest + MARKER + tag.signature)
  }

  // What a signer must keep to: no blank line in or at the end of the header, and
  // no marker in the manifest followed by a newline.
  ghost predicate IsClean(tag: Tag) {
    && !Contains(tag.header, BLANK_LINE)
    && !EndsInNewline(tag.header)
    && !Contains(tag.manifest + "\n", MARKER)
  }

  lemma PartitionJoins(text: string, separator: string)
    ensures Partition(text, separator).Some? ==>
      var (a, b) := Partition(text, separator).value;
      text == a + separator + b &&
      Find(a + separator, separator) == Some(|a|)
  {
    FindIsEarliest(text, separator);
    if Find(text, separator).Some? {
      var i := Find(text, separator).value;
      var a, b := text[..i], text[i + |separator|..];
      assert text == a + separator + b;
      EarliestInFront(a, separator, b);
    }
  }

  lemma PartitionOf(a: string, separator: string, b: string)
    ensures Partition(a + separator + b, separator) == Some((a, b)) <==> Find(a + separator, separator) == Some(|a|)
  {
    EarliestInFront(a, separator, b);
    var text := a + separator + b;
    assert text[..|a|] == a && text[|a| + |separator|..] == b;
  }

  // Either the separator ends `a`, or it occurs before.
  lemma FoundEarlier(a: string, separator: string) returns (j: nat)
    requires Find(a + separator, separator) != Some(|a|)
    ensures j < |a| && OccursAt(a + separator, separator, j)
  {
    OccursAtEnd(a, separator);
    FindAtMost(a + separator, separator, |a|);
    FindOccurs(a + separator, separator);
    j := Find(a + separator, separator).value;
  }

  lemma NotFoundAt(text: string, separator: string, j: nat, n: nat)
    requires OccursAt(text, separator, j) && j < n
    ensures Find(text, separator) != Some(n)
  {
    FindAtMost(text, separator, j);
  }

  lemma NoneNearEnd(header: string, j: nat)
    requires Find(header + BLANK_LINE, BLANK_LINE) == Some(|header|)
    ensures !OccursAt(header, BLANK_LINE, j) && (j == |header| - 1 ==> header[j] != '\n')
  {
    if j < |header| {
      BlankLineNearEnd(header, j);
      if OccursAt(header + BLANK_LINE, BLANK_LINE, j) {
        NotFoundAt(header + BLANK_LINE, BLANK_LINE, j, |header|);
      }
    }
  }

  ghost predicate EndsInNewline(header: string) {
    header != [] && header[|header| - 1] == '\n'
  }

  lemma FoundAtEnd(header: string)
    requires Find(header + BLANK_LINE, BLANK_LINE) == Some(|header|)
    ensures !Contains(header, BLANK_LINE) && !EndsInNewline(header)
  {
    forall j: nat ensures !OccursAt(header, BLANK_LINE, j) { NoneNearEnd(header, j); }
    if header != [] { NoneNearEnd(header, |header| - 1); }
  }

  lemma FoundBefore(header: string)
    requires Find(header + BLANK_LINE, BLANK_LINE) != Some(|header|)
    ensures Contains(header, BLANK_LINE) || EndsInNewline(header)
  {
    var j := FoundEarlier(header, BLANK_LINE);
    BlankLineNearEnd(header, j);
  }

  // The blank line is found at the end of the header.
  lemma HeaderEnds(header: string)
    ensures Find(header + BLANK_LINE, BLANK_LINE) == Some(|header|)
       <==> !Contains(header, BLANK_LINE) && !EndsInNewline(header)
  {
    if Find(header + BLANK_LINE, BLANK_LINE) == Some(|header|) {
      FoundAtEnd(header);
    } else {
      FoundBefore(header);
    }
  }

  lemma BlankLineNearEnd(header: string, j: nat)
    requires j < |header|
    ensures OccursAt(header + BLANK_LINE, BLANK_LINE, j) <==>
      OccursAt(header, BLANK_LINE, j) || (j == |header| - 1 && header[j] == '\n')
  {
    var text := header + BLANK_LINE;
    OccursPointwise(text, BLANK_LINE, j);
    if j + 2 <= |header| { OccursPointwise(header, BLANK_LINE, j); }
    assert text[j] == header[j] && text[j + 1] == if j + 1 < |header| then header[j + 1] else '\n';
    assert BLANK_LINE[0] == BLANK_LINE[1] == '\n';
  }

  // Newlines stand only at the two ends of the marker, so two occurrences can
  // share no more than one character.
  lemma MarkersShareANewline(manifest: string, j: nat)
    requires j < |manifest|
    ensures OccursAt(manifest + MARKER, MARKER, j) <==> OccursAt(manifest + "\n", MARKER, j)
  {
    var text, line := manifest + MARKER, manifest + "\n";
    OccursPointwise(text, MARKER, j);
    if j + |MARKER| <= |line| {
      OccursPointwise(line, MARKER, j);
      assert forall k :: 0 <= k < |line| ==> text[k] == line[k];
    } else if OccursAt(text, MARKER, j) {
      var k := |manifest| - j;
      assert text[j + k] == MARKER[0] == '\n';
      OnlyNewlinesAtEnds(k);
    }
  }

  lemma OnlyNewlinesAtEnds(k: nat)
    requires 0 < k < |MARKER| - 1
    ensures MARKER[k] != '\n'
  {
  }

  lemma ManifestEnds(manifest: string)
    ensures Find(manifest + MARKER, MARKER) == Some(|manifest|) <==> !Contains(manifest + "\n", MARKER)
  {
    if Find(manifest + MARKER, MARKER) != Some(|manifest|) {
      var j := FoundEarlier(manifest, MARKER);
      MarkersShareANewline(manifest, j);
    } else if j: nat :| OccursAt(manifest + "\n", MARKER, j) {
      MarkersShareANewline(manifest, j);
      NotFoundAt(manifest + MARKER, MARKER, j, |manifest|);
    }
  }

  // Splitting finds exactly the clean tags, and takes them apart as assembled.
  lemma SplitInvertsAssemble(payload: string, tag: Tag)
    ensures Split(payload) == Some(tag) <==> payload == Assemble(tag) && IsClean(tag)
  {
    var message := tag.manifest + MARKER + tag.signature;
    HeaderEnds(tag.header);
    ManifestEnds(tag.manifest);
    if payload == Assemble(tag) {
      PartitionOf(tag.header, BLANK_LINE, message);
      PartitionOf(tag.manifest, MARKER, tag.signature);
    }
    if Split(payload) == Some(tag) {
      PartitionJoins(payload, BLANK_LINE);
      PartitionJoins(Partition(payload, BLANK_LINE).value.1, MARKER);
    }
  }

  // A payload is refused exactly when it is not the assembly of any clean tag.
  lemma SplitRefuses(payload: string)
    ensures Split(payload).None? <==> forall tag :: IsClean(tag) ==> payload != Assemble(tag)
  {
    forall tag ensures Split(payload) == Some(tag) <==> payload == Assemble(tag) && IsClean(tag) {
      SplitInvertsAssemble(payload, tag);
    }
  }
}
