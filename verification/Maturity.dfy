// `maturity_classifier_for_version` of scripts/check_pypi_artifacts.py against the
// structure of PEP 440 versions ("Pre-releases", "Developmental releases", "Local
// version identifiers").
module Maturity {
  import opened Options
  import opened Text

  datatype Classifier = Beta | Stable

  predicate IsDigit(c: char) { '0' <= c <= '9' }

  // `word[0-9]+` at position `i`, letters in either case.
  predicate TagAt(text: string, word: string, i: nat) {
    var end := i + |word|;
    end < |text| && Lower(text[i..end]) == word && IsDigit(text[end])
  }

  // The search pattern at position `i`; the "dev" branch needs the start of the
  // text or a dot before it.
  predicate MarkerAt(text: string, i: nat) {
    || TagAt(text, "a", i) || TagAt(text, "b", i) || TagAt(text, "rc", i)
    || (TagAt(text, "dev", i) && (i == 0 || text[i - 1] == '.'))
  }

  predicate SearchFrom(text: string, i: nat)
    requires i <= |text|
    decreases |text| - i
  {
    i < |text| && (MarkerAt(text, i) || SearchFrom(text, i + 1))
  }

  lemma {:induction false} SearchFinds(text: string, i: nat)
    requires i <= |text|
    ensures SearchFrom(text, i) <==> exists j: nat :: i <= j < |text| && MarkerAt(text, j)
    decreases |text| - i
  {
    if i < |text| { SearchFinds(text, i + 1); }
  }

  function PublicPart(version: string): string {
    match Find(version, "+")
    case None => version
    case Some(i) => version[..i]
  }

  function ClassifierFor(version: string): Classifier {
    if SearchFrom(PublicPart(version), 0) then Beta else Stable
  }

  // ---- PEP 440 versions ----

  // A number is a nonempty string of digits; the letters of the tags may be of
  // either case.
  datatype Version = Version(
    epoch: Option<string>,
    release: seq<string>,
    pre: Option<(string, string)>,
    post: Option<(string, string)>,
    dev: Option<(string, string)>,
    local: Option<string>)

  ghost predicate IsNumber(text: string) {
    text != [] && forall c <- text :: IsDigit(c)
  }

  ghost predicate IsTagged(tag: Option<(string, string)>, words: set<string>) {
    tag.Some? ==> Lower(tag.value.0) in words && IsNumber(tag.value.1)
  }

  ghost predicate IsVersion(v: Version) {
    && (v.epoch.Some? ==> IsNumber(v.epoch.value))
    && v.release != [] && (forall k :: 0 <= k < |v.release| ==> IsNumber(v.release[k]))
    && IsTagged(v.pre, {"a", "b", "rc"}) && IsTagged(v.post, {"post"}) && IsTagged(v.dev, {"dev"})
  }

  function PrintRelease(release: seq<string>): string {
    if release == [] then ""
    else if |release| == 1 then release[0]
    else release[0] + "." + PrintRelease(release[1..])
  }

  function PrintTag(dot: string, tag: Option<(string, string)>): string {
    if tag.None? then "" else dot + tag.value.0 + tag.value.1
  }

  function PrintBase(v: Version): string {
    (if v.epoch.None? then "" else v.epoch.value + "!") + PrintRelease(v.release)
  }

  function PrintPublic(v: Version): string {
    PrintBase(v) + PrintTag("", v.pre) + PrintTag(".", v.post) + PrintTag(".", v.dev)
  }

  function Print(v: Version): string {
    PrintPublic(v) + if v.local.None? then "" else "+" + v.local.value
  }

  // ---- The search is right about them ----

  // No character of the text can begin a marker, and none is a plus sign.
  ghost predicate IsQuiet(text: string) {
    forall i :: 0 <= i < |text| ==> LowerChar(text[i]) !in {'a', 'b', 'r', 'd', '+'}
  }

  lemma QuietConcat(a: string, b: string)
    ensures IsQuiet(a) && IsQuiet(b) ==> IsQuiet(a + b)
  {
  }

  lemma NumbersAreQuiet(text: string)
    requires IsNumber(text)
    ensures IsQuiet(text)
  {
    assert forall i :: 0 <= i < |text| ==> text[i] in text;
  }

  lemma {:induction false} ReleaseIsQuiet(release: seq<string>)
    requires forall k :: 0 <= k < |release| ==> IsNumber(release[k])
    ensures IsQuiet(PrintRelease(release))
  {
    if release != [] {
      NumbersAreQuiet(release[0]);
      ReleaseIsQuiet(release[1..]);
      QuietConcat(release[0], ".");
      QuietConcat(release[0] + ".", PrintRelease(release[1..]));
    }
  }

  lemma BaseIsQuiet(v: Version)
    requires IsVersion(v)
    ensures IsQuiet(PrintBase(v))
  {
    ReleaseIsQuiet(v.release);
    if v.epoch.Some? {
      NumbersAreQuiet(v.epoch.value);
      QuietConcat(v.epoch.value, "!");
      QuietConcat(v.epoch.value + "!", PrintRelease(v.release));
    }
  }

  lemma PostIsQuiet(v: Version)
    requires IsVersion(v)
    ensures IsQuiet(PrintTag(".", v.post))
  {
    if v.post.Some? {
      var word := v.post.value.0;
      assert Lower(word) == "post";
      assert forall i :: 0 <= i < |word| ==> LowerChar(word[i]) == Lower(word)[i];
      NumbersAreQuiet(v.post.value.1);
      QuietConcat(".", word);
      QuietConcat("." + word, v.post.value.1);
    }
  }

  lemma QuietHasNoMarker(text: string)
    requires IsQuiet(text)
    ensures !SearchFrom(text, 0)
  {
    forall i: nat | i < |text| ensures !MarkerAt(text, i) {
      TagBegins(text, "a", i); TagBegins(text, "b", i); TagBegins(text, "rc", i); TagBegins(text, "dev", i);
    }
    SearchFinds(text, 0);
  }

  lemma TagBegins(text: string, word: string, i: nat)
    requires word != [] && i < |text|
    ensures TagAt(text, word, i) ==> LowerChar(text[i]) == word[0]
  {
    if TagAt(text, word, i) {
      assert Lower(text[i..i + |word|])[0] == LowerChar(text[i]);
    }
  }

  lemma TagIsFound(before: string, tag: string, number: string, after: string)
    requires IsNumber(number)
    ensures TagAt(before + tag + number + after, Lower(tag), |before|)
  {
    var text := before + tag + number + after;
    assert text[|before|..|before| + |tag|] == tag;
    assert text[|before| + |tag|] == number[0] && number[0] in number;
  }

  lemma PublicPartOf(v: Version)
    requires '+' !in PrintPublic(v)
    ensures PublicPart(Print(v)) == PrintPublic(v)
  {
    var public, version := PrintPublic(v), Print(v);
    FindOccurs(version, "+");
    if v.local.Some? {
      assert version[|public|..|public| + 1] == "+";
      FindAtMost(version, "+", |public|);
    }
    if Find(version, "+").Some? {
      var i := Find(version, "+").value;
      assert version[i..i + 1][0] == version[i];
    }
  }

  lemma TagHasNoPlus(dot: string, tag: Option<(string, string)>, words: set<string>)
    requires IsTagged(tag, words) && '+' !in dot && forall word <- words :: '+' !in word
    ensures '+' !in PrintTag(dot, tag)
  {
    if tag.Some? {
      var word := tag.value.0;
      forall i | 0 <= i < |word| ensures word[i] != '+' {
        assert LowerChar(word[i]) == Lower(word)[i] && Lower(word)[i] in Lower(word);
      }
    }
  }

  lemma PublicHasNoPlus(v: Version)
    requires IsVersion(v)
    ensures '+' !in PrintPublic(v)
  {
    BaseIsQuiet(v);
    assert '+' !in PrintBase(v) by {
      assert forall i :: 0 <= i < |PrintBase(v)| ==> PrintBase(v)[i] != '+';
    }
    TagHasNoPlus("", v.pre, {"a", "b", "rc"});
    TagHasNoPlus(".", v.post, {"post"});
    TagHasNoPlus(".", v.dev, {"dev"});
  }

  // A pre-release or a developmental release leaves a marker in the public part.
  lemma PreIsFound(v: Version)
    requires IsVersion(v) && v.pre.Some?
    ensures SearchFrom(PrintPublic(v), 0)
  {
    var after := PrintTag(".", v.post) + PrintTag(".", v.dev);
    TagIsFound(PrintBase(v), v.pre.value.0, v.pre.value.1, after);
    assert PrintPublic(v) == PrintBase(v) + v.pre.value.0 + v.pre.value.1 + after;
    assert MarkerAt(PrintPublic(v), |PrintBase(v)|);
    SearchFinds(PrintPublic(v), 0);
  }

  lemma DevIsFound(v: Version)
    requires IsVersion(v) && v.dev.Some?
    ensures SearchFrom(PrintPublic(v), 0)
  {
    var before := PrintBase(v) + PrintTag("", v.pre) + PrintTag(".", v.post) + ".";
    TagIsFound(before, v.dev.value.0, v.dev.value.1, "");
    assert PrintPublic(v) == before + v.dev.value.0 + v.dev.value.1 + "";
    assert PrintPublic(v)[|before| - 1] == '.';
    assert MarkerAt(PrintPublic(v), |before|);
    SearchFinds(PrintPublic(v), 0);
  }

  // No other version has a marker in its public part.
  lemma OtherIsQuiet(v: Version)
    requires IsVersion(v) && v.pre.None? && v.dev.None?
    ensures IsQuiet(PrintPublic(v))
  {
    var base, post := PrintBase(v), PrintTag(".", v.post);
    BaseIsQuiet(v);
    PostIsQuiet(v);
    QuietConcat(base, post);
    assert PrintPublic(v) == base + "" + post + "" == base + post;
  }

  // The classifier is Beta exactly for pre-releases and developmental releases,
  // whatever the epoch, the post-release and the local part are.
  lemma BetaExactly(v: Version)
    requires IsVersion(v)
    ensures ClassifierFor(Print(v)) == Beta <==> v.pre.Some? || v.dev.Some?
  {
    PublicHasNoPlus(v);
    PublicPartOf(v);
    if v.pre.Some? {
      PreIsFound(v);
    } else if v.dev.Some? {
      DevIsFound(v);
    } else {
      OtherIsQuiet(v);
      QuietHasNoMarker(PrintPublic(v));
    }
  }
}
