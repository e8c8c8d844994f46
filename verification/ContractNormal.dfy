// `_normalize_contract` of scripts/contract_fixtures.py: contract fixtures must
// not depend on versions, on the environment or on the workspace they were built
// in.
module ContractNormal {
  import opened Text
  import opened Replacing
  import opened Cutting

  // A parsed JSON document whose string values are of type S.
  datatype Json<S> =
    | Null
    | Bool(truth: bool)
    | Number(literal: string)
    | Str(text: S)
    | List(items: seq<Json<S>>)
    | Object(fields: map<string, Json<S>>)

  const WORKSPACE := "<workspace>"

  predicate IsPackageVersion(key: string) { key == "package_version" || key == "generator_algorithm_version" }

  predicate IsPythonVersion(key: string) { key == "python_version" }

  predicate IsFingerprint(key: string) { key == "dependencies_sha256" || key == "normalized_dependencies_sha256" }

  predicate IsDependencies(key: string) { key == "dependencies" || key == "normalized_dependencies" }

  // Keys whose value is masked whatever it is.
  predicate IsMasked(key: string) { IsPackageVersion(key) || IsPythonVersion(key) || IsFingerprint(key) }

  function Mask(key: string): string
    requires IsMasked(key)
  {
    if IsPackageVersion(key) then "<package-version>"
    else if IsPythonVersion(key) then "<python-version>"
    else "<dependency-fingerprint>"
  }

  function Normalize(payload: Json<string>, root: string): Json<string>
    requires root != []
    decreases payload, 0
  {
    match payload
    case Object(fields) =>
      Object(map key | key in fields :: NormalizeField(key, fields[key], root))
    case List(items) => List(seq(|items|, i requires 0 <= i < |items| => Normalize(items[i], root)))
    case Str(text) => Str(Replace(text, root, WORKSPACE))
    case _ => payload
  }

  function NormalizeField(key: string, value: Json<string>, root: string): Json<string>
    requires root != []
    decreases value, 1
  {
    if IsMasked(key) then Str(Mask(key))
    else if IsDependencies(key) && value.Object? then
      Object(map name | name in value.fields :: Str("<dependency-version>"))
    else Normalize(value, root)
  }

  // ---- Normalising twice ----

  // An absolute workspace path without "<" cannot overlap the placeholder.
  lemma AbsoluteRootNeverReappears(root: string)
    requires root != [] && root[0] == '/' && '<' !in root
    ensures NeverReappears(root, WORKSPACE)
  {
    forall d | -|root| < d < |WORKSPACE| ensures !Reappears(root, WORKSPACE, d) {
      if d >= 0 {
        assert WORKSPACE[d] != '/';
        assert root[0] != WORKSPACE[0 + d];
      } else {
        assert root[-d] in root;
        assert root[-d] != WORKSPACE[-d + d];
      }
    }
  }

  // A normalised contract is a fixed point.
  lemma {:induction false} NormalizeTwice(payload: Json<string>, root: string)
    requires root != [] && (root == WORKSPACE || NeverReappears(root, WORKSPACE))
    ensures Normalize(Normalize(payload, root), root) == Normalize(payload, root)
    decreases payload
  {
    match payload
    case Object(fields) =>
      var once := Normalize(payload, root).fields;
      forall key | key in fields ensures NormalizeField(key, once[key], root) == once[key] {
        NormalizeTwice(fields[key], root);
        FieldTwice(key, fields[key], root);
      }
      assert Normalize(Object(once), root).fields == once;
    case List(items) =>
      forall i | 0 <= i < |items| ensures Normalize(Normalize(items[i], root), root) == Normalize(items[i], root) {
        NormalizeTwice(items[i], root);
      }
    case Str(text) =>
      ReplaceIsIdempotent(root, WORKSPACE);
      assert SameTwice(text, root, WORKSPACE);
    case _ =>
  }

  lemma FieldTwice(key: string, value: Json<string>, root: string)
    requires root != [] && Normalize(Normalize(value, root), root) == Normalize(value, root)
    ensures NormalizeField(key, NormalizeField(key, value, root), root) == NormalizeField(key, value, root)
  {
    if !IsMasked(key) && IsDependencies(key) && value.Object? {
      var once := NormalizeField(key, value, root);
      assert NormalizeField(key, once, root).fields == once.fields;
    }
  }

  ghost predicate IsSettled(payload: Json<string>, root: string)
    requires root != []
  {
    Normalize(Normalize(payload, root), root) == Normalize(payload, root)
  }

  // Normalising twice is normalising once, for every document, exactly when the
  // workspace path never reappears around the placeholder (or is the placeholder).
  lemma NormalizeIsIdempotent(root: string)
    requires root != []
    ensures (forall payload :: IsSettled(payload, root)) <==> root == WORKSPACE || NeverReappears(root, WORKSPACE)
  {
    ReplaceIsIdempotent(root, WORKSPACE);
    if root == WORKSPACE || NeverReappears(root, WORKSPACE) {
      forall payload ensures IsSettled(payload, root) { NormalizeTwice(payload, root); }
    } else {
      var text :| !SameTwice(text, root, WORKSPACE);
      assert !IsSettled(Str(text), root);
    }
  }

  // Any workspace path that ends in "<" and has no other one falls outside.
  lemma {:induction false} PathEndingInAngle(name: string)
    requires '<' !in name
    ensures Reappears(['/'] + name + ['<'], WORKSPACE, -(|name| + 1))
  {
    var base := ['/'] + name;
    var root, text := base + ['<'], base + (base + ['<']);
    assert root[..|base|] == base;
    forall j: nat | OccursAt(text, root, j) ensures j == |base| {
      OccursPointwise(text, root, j);
      assert text[j + |base|] == root[|base|] == '<';
      assert forall k :: 0 <= k < |text| - 1 ==> text[k] != '<';
    }
    assert text[|base|..] == root;
    FindIsFirst(text, root, |base|);
  }

  // ---- Which contracts normalise alike ----

  // The two documents differ only in masked values, in dependency versions and in
  // strings, which are pairwise alike.
  ghost predicate SameUpTo(a: Json<string>, b: Json<string>, alike: (string, string) -> bool)
    decreases a, 0
  {
    match a
    case Object(fields) =>
      && b.Object? && fields.Keys == b.fields.Keys
      && forall key <- fields :: SameField(key, fields[key], b.fields[key], alike)
    case List(items) =>
      b.List? && |items| == |b.items| && forall i :: 0 <= i < |items| ==> SameUpTo(items[i], b.items[i], alike)
    case Str(text) => b.Str? && alike(text, b.text)
    case _ => a == b
  }

  ghost predicate SameField(key: string, a: Json<string>, b: Json<string>, alike: (string, string) -> bool)
    decreases a, 1
  {
    || IsMasked(key)
    || (if IsDependencies(key) && a.Object? && b.Object? then a.fields.Keys == b.fields.Keys
        else !(IsDependencies(key) && (a.Object? || b.Object?)) && SameUpTo(a, b, alike))
  }

  // The strings have the same pieces between mentions of the workspace, or of the
  // placeholder.
  ghost function SamePieces(here: string, there: string): (string, string) -> bool
    requires here != [] && there != []
  {
    (s: string, t: string) => Pieces(s, here, WORKSPACE) == Pieces(t, there, WORKSPACE)
  }

  // Two documents from two workspaces normalise alike exactly when they differ only
  // in masked values, in dependency versions and in what stands between the pieces.
  lemma {:induction false} NormalizeAlike(a: Json<string>, here: string, b: Json<string>, there: string)
    requires here != [] && there != []
    ensures Normalize(a, here) == Normalize(b, there) <==> SameUpTo(a, b, SamePieces(here, there))
    decreases a, 0
  {
    var alike := SamePieces(here, there);
    match a
    case Object(fields) =>
      if b.Object? {
        var x, y := Normalize(a, here).fields, Normalize(b, there).fields;
        assert x.Keys == fields.Keys && y.Keys == b.fields.Keys;
        forall key | key in fields && key in b.fields
          ensures x[key] == y[key] <==> SameField(key, fields[key], b.fields[key], alike)
        {
          NormalizeAlike(fields[key], here, b.fields[key], there);
          FieldAlike(key, fields[key], here, b.fields[key], there);
          assert x[key] == NormalizeField(key, fields[key], here);
          assert y[key] == NormalizeField(key, b.fields[key], there);
        }
        assert x == y <==> x.Keys == y.Keys && forall key <- x :: x[key] == y[key];
      }
    case List(items) =>
      if b.List? {
        var x, y := Normalize(a, here).items, Normalize(b, there).items;
        forall i | 0 <= i < |items| && i < |b.items| ensures x[i] == y[i] <==> SameUpTo(items[i], b.items[i], alike) {
          NormalizeAlike(items[i], here, b.items[i], there);
        }
        assert x == y <==> |x| == |y| && forall i :: 0 <= i < |x| ==> x[i] == y[i];
      }
    case Str(text) =>
      if b.Str? { ReplacedAlike(text, here, b.text, there, WORKSPACE); }
    case _ =>
  }

  lemma FieldAlike(key: string, a: Json<string>, here: string, b: Json<string>, there: string)
    requires here != [] && there != []
    requires Normalize(a, here) == Normalize(b, there) <==> SameUpTo(a, b, SamePieces(here, there))
    ensures NormalizeField(key, a, here) == NormalizeField(key, b, there)
       <==> SameField(key, a, b, SamePieces(here, there))
  {
    if IsDependencies(key) && a.Object? && b.Object? {
      var x, y := NormalizeField(key, a, here).fields, NormalizeField(key, b, there).fields;
      assert x.Keys == a.fields.Keys && y.Keys == b.fields.Keys;
      assert x == y <==> x.Keys == y.Keys;
    }
  }

  // No string that is kept mentions the placeholder.
  ghost predicate AvoidsPlaceholder(payload: Json<string>)
    decreases payload, 0
  {
    match payload
    case Object(fields) => forall key <- fields :: AvoidsInField(key, fields[key])
    case List(items) => forall i :: 0 <= i < |items| ==> AvoidsPlaceholder(items[i])
    case Str(text) => !Contains(text, WORKSPACE)
    case _ => true
  }

  ghost predicate AvoidsInField(key: string, value: Json<string>)
    decreases value, 1
  {
    IsMasked(key) || (IsDependencies(key) && value.Object?) || AvoidsPlaceholder(value)
  }

  ghost predicate MeanTheSame(one: (string, string) -> bool, other: (string, string) -> bool) {
    forall s, t :: !Contains(s, WORKSPACE) && !Contains(t, WORKSPACE) ==> (one(s, t) <==> other(s, t))
  }

  // Relations that agree on strings without the placeholder agree on documents
  // without it.
  lemma {:induction false} SameUpToEither(
    a: Json<string>, b: Json<string>, one: (string, string) -> bool, other: (string, string) -> bool)
    requires AvoidsPlaceholder(a) && AvoidsPlaceholder(b) && MeanTheSame(one, other)
    ensures SameUpTo(a, b, one) <==> SameUpTo(a, b, other)
    decreases a
  {
    match a
    case Object(fields) =>
      if b.Object? && fields.Keys == b.fields.Keys {
        forall key | key in fields
          ensures SameField(key, fields[key], b.fields[key], one) <==> SameField(key, fields[key], b.fields[key], other)
        {
          assert AvoidsInField(key, fields[key]) && AvoidsInField(key, b.fields[key]);
          if AvoidsPlaceholder(fields[key]) && AvoidsPlaceholder(b.fields[key]) {
            SameUpToEither(fields[key], b.fields[key], one, other);
          }
        }
      }
    case List(items) =>
      if b.List? && |items| == |b.items| {
        forall i | 0 <= i < |items|
          ensures SameUpTo(items[i], b.items[i], one) <==> SameUpTo(items[i], b.items[i], other) {
          SameUpToEither(items[i], b.items[i], one, other);
        }
      }
    case _ =>
  }

  // In one workspace, documents without the placeholder normalise alike exactly
  // when they differ only in masked values and dependency versions.
  lemma SameWorkspace(a: Json<string>, b: Json<string>, root: string)
    requires root != [] && AvoidsPlaceholder(a) && AvoidsPlaceholder(b)
    ensures Normalize(a, root) == Normalize(b, root) <==> SameUpTo(a, b, (s: string, t: string) => s == t)
  {
    var alike, equal := SamePieces(root, root), (s: string, t: string) => s == t;
    NormalizeAlike(a, root, b, root);
    forall s, t | !Contains(s, WORKSPACE) && !Contains(t, WORKSPACE) ensures alike(s, t) <==> equal(s, t) {
      ReplacedAlike(s, root, t, root, WORKSPACE);
      ReplaceIsInjective(s, t, root, WORKSPACE);
    }
    SameUpToEither(a, b, alike, equal);
  }

  ghost function Moved(here: string, there: string): (string, string) -> bool {
    (s: string, t: string) => IsMoved(s, here, t, there)
  }

  // In two workspaces they do so exactly when, besides, every string that is kept
  // mentions the one workspace where its counterpart mentions the other.
  lemma OtherWorkspace(a: Json<string>, here: string, b: Json<string>, there: string)
    requires here != [] && there != [] && AvoidsPlaceholder(a) && AvoidsPlaceholder(b)
    ensures Normalize(a, here) == Normalize(b, there) <==> SameUpTo(a, b, Moved(here, there))
  {
    var alike, moved := SamePieces(here, there), Moved(here, there);
    NormalizeAlike(a, here, b, there);
    forall s, t | !Contains(s, WORKSPACE) && !Contains(t, WORKSPACE) ensures alike(s, t) <==> moved(s, t) {
      ReplacedAlike(s, here, t, there, WORKSPACE);
      ReplacedMoved(s, here, t, there, WORKSPACE);
    }
    SameUpToEither(a, b, alike, moved);
  }

  // ---- Workspaces ----

  // The document with the workspace path put into every gap of its strings.
  function Fill(template: Json<seq<string>>, root: string): Json<string> {
    match template
    case Null => Null
    case Bool(truth) => Bool(truth)
    case Number(literal) => Number(literal)
    case Str(parts) => Str(JoinWith(parts, root))
    case List(items) => List(seq(|items|, i requires 0 <= i < |items| => Fill(items[i], root)))
    case Object(fields) => Object(map key | key in fields :: Fill(fields[key], root))
  }

  // In the values that are kept the path occurs nowhere else than in the gaps.
  ghost predicate Fits(template: Json<seq<string>>, root: string)
    decreases template, 0
  {
    match template
    case Str(parts) => OnlyInGaps(parts, root)
    case List(items) => forall i :: 0 <= i < |items| ==> Fits(items[i], root)
    case Object(fields) => forall key <- fields :: FitsField(key, fields[key], root)
    case _ => true
  }

  ghost predicate FitsField(key: string, value: Json<seq<string>>, root: string)
    decreases value, 1
  {
    IsMasked(key) || (IsDependencies(key) && value.Object?) || Fits(value, root)
  }

  // The normalised contract does not depend on the workspace it was built in.
  lemma {:induction false} WorkspaceDoesNotMatter(template: Json<seq<string>>, here: string, there: string)
    requires here != [] && there != [] && Fits(template, here) && Fits(template, there)
    ensures Normalize(Fill(template, here), here) == Normalize(Fill(template, there), there)
    decreases template
  {
    match template
    case Str(parts) =>
      ReplaceFillsGaps(parts, here, WORKSPACE);
      ReplaceFillsGaps(parts, there, WORKSPACE);
    case List(items) =>
      forall i | 0 <= i < |items|
        ensures Normalize(Fill(items[i], here), here) == Normalize(Fill(items[i], there), there)
      {
        WorkspaceDoesNotMatter(items[i], here, there);
      }
    case Object(fields) =>
      var x, y := Normalize(Fill(template, here), here).fields, Normalize(Fill(template, there), there).fields;
      forall key | key in fields ensures x[key] == y[key] {
        assert FitsField(key, fields[key], here) && FitsField(key, fields[key], there);
        if !IsMasked(key) && !(IsDependencies(key) && fields[key].Object?) {
          WorkspaceDoesNotMatter(fields[key], here, there);
        }
        FieldsMatch(key, fields[key], here, there);
      }
      assert x == y;
    case _ =>
  }

  lemma FieldsMatch(key: string, value: Json<seq<string>>, here: string, there: string)
    requires here != [] && there != []
    requires || IsMasked(key) || (IsDependencies(key) && value.Object?)
             || Normalize(Fill(value, here), here) == Normalize(Fill(value, there), there)
    ensures NormalizeField(key, Fill(value, here), here) == NormalizeField(key, Fill(value, there), there)
  {
    if !IsMasked(key) && IsDependencies(key) && value.Object? {
      var x := NormalizeField(key, Fill(value, here), here).fields;
      var y := NormalizeField(key, Fill(value, there), there).fields;
      assert x == y;
    }
  }

  // ---- What a normalised contract looks like ----

  // No string mentions the workspace, and every masked value is its mask.
  ghost predicate IsNormal(payload: Json<string>, root: string)
    requires root != []
    decreases payload, 0
  {
    match payload
    case Object(fields) => forall key <- fields :: IsNormalField(key, fields[key], root)
    case List(items) => forall i :: 0 <= i < |items| ==> IsNormal(items[i], root)
    case Str(text) => !Contains(text, root)
    case _ => true
  }

  ghost predicate IsNormalField(key: string, value: Json<string>, root: string)
    requires root != []
    decreases value, 1
  {
    if key in {"package_version", "generator_algorithm_version"} then value == Str("<package-version>")
    else if key == "python_version" then value == Str("<python-version>")
    else if key in {"dependencies_sha256", "normalized_dependencies_sha256"} then
      value == Str("<dependency-fingerprint>")
    else if key in {"dependencies", "normalized_dependencies"} && value.Object? then
      forall name <- value.fields :: value.fields[name] == Str("<dependency-version>")
    else IsNormal(value, root)
  }

  lemma ReplaceKeeps(text: string, root: string)
    requires root != [] && root != WORKSPACE
    ensures Replace(text, root, WORKSPACE) == text <==> !Contains(text, root)
  {
    FindIsEarliest(text, root);
    if Contains(text, root) {
      ReplaceChanges(text, root, WORKSPACE);
    }
  }

  // Normalisation changes exactly the contracts that are not in this form.
  lemma {:induction false} NormalForm(payload: Json<string>, root: string)
    requires root != [] && root != WORKSPACE
    ensures Normalize(payload, root) == payload <==> IsNormal(payload, root)
    decreases payload
  {
    match payload
    case Object(fields) =>
      var result := Normalize(payload, root).fields;
      assert result.Keys == fields.Keys;
      forall key | key in fields ensures result[key] == fields[key] <==> IsNormalField(key, fields[key], root) {
        NormalForm(fields[key], root);
        FieldNormalForm(key, fields[key], root);
      }
      assert result == fields <==> forall key <- fields :: result[key] == fields[key];
    case List(items) =>
      var result := Normalize(payload, root).items;
      forall i | 0 <= i < |items| ensures result[i] == items[i] <==> IsNormal(items[i], root) {
        NormalForm(items[i], root);
      }
      assert result == items <==> forall i :: 0 <= i < |items| ==> result[i] == items[i];
    case Str(text) => ReplaceKeeps(text, root);
    case _ =>
  }

  lemma FieldNormalForm(key: string, value: Json<string>, root: string)
    requires root != [] && (Normalize(value, root) == value <==> IsNormal(value, root))
    ensures NormalizeField(key, value, root) == value <==> IsNormalField(key, value, root)
  {
    if !IsMasked(key) && IsDependencies(key) && value.Object? {
      var result := NormalizeField(key, value, root).fields;
      assert result == value.fields <==>
        forall name <- value.fields :: value.fields[name] == Str("<dependency-version>");
    }
  }
}
