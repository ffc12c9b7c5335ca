/**
 Auto-detection of a usable Gemini model (app.py, `conseguir_modelo_valido`).

 The catalogue that the generative-AI client lists for an API key is an input:
 either the models it listed, or the fact that listing raised. Configuring the
 client has no observable effect here and is not modelled.
 */
module ModelDetection {
  import opened Wrappers
  import opened PyStr

  /** One entry of the catalogue: its full name ("models/gemini-pro") and the
      generation methods it supports. */
  datatype ModelInfo = ModelInfo(name: string, supportedGenerationMethods: seq<string>)

  /** What listing the models gave: the models in listing order, or an
      exception raised while listing or walking through them. */
  datatype Catalogue = Listed(models: seq<ModelInfo>) | ListingFailed

  const GenerateContent: string := "generateContent"
  const ModelsPrefix: string := "models/"

  /** The short names preferred by the selection, in priority order. */
  const Favourites: seq<string> := ["gemini-1.5-flash", "gemini-1.5-pro", "gemini-pro"]

  /** Python truthiness of the key: a missing secret (None) and an empty text
      input ("") are both "no key". */
  predicate KeyPresent(apiKey: Option<string>)
  {
    apiKey.Some? && apiKey.value != ""
  }

  predicate SupportsGenerateContent(m: ModelInfo)
  {
    GenerateContent in m.supportedGenerationMethods
  }

  /** The candidate list: names of the models that support generateContent,
      in catalogue order. */
  function Candidates(models: seq<ModelInfo>): seq<string>
  {
    if models == [] then []
    else (if SupportsGenerateContent(models[0]) then [models[0].name] else []) + Candidates(models[1..])
  }

  /** Some entry of the catalogue with name `n` supports generateContent. */
  ghost predicate Offers(models: seq<ModelInfo>, n: string)
  {
    exists i :: 0 <= i < |models| && models[i].name == n && SupportsGenerateContent(models[i])
  }

  /** The priority choice among the candidates: flash, then 1.5 pro, then
      gemini-pro, else the first candidate with "models/" deleted, else None. */
  function SelectModel(candidates: seq<string>): (r: Option<string>)
    ensures r.None? <==> candidates == []
    ensures r.Some? ==> r.value in Favourites || r.value == DeleteAll(candidates[0], ModelsPrefix)
  {
    if "models/gemini-1.5-flash" in candidates then Some("gemini-1.5-flash")
    else if "models/gemini-1.5-pro" in candidates then Some("gemini-1.5-pro")
    else if "models/gemini-pro" in candidates then Some("gemini-pro")
    else if candidates != [] then Some(DeleteAll(candidates[0], ModelsPrefix))
    else None
  }

  /** What `conseguir_modelo_valido` returns for a key and a catalogue. */
  function DetectedModel(apiKey: Option<string>, catalogue: Catalogue): (r: Option<string>)
    ensures !KeyPresent(apiKey) ==> r == None
    ensures r.Some? ==> KeyPresent(apiKey) && catalogue.Listed? && Candidates(catalogue.models) != []
  {
    if !KeyPresent(apiKey) then None
    else match catalogue
      case ListingFailed => None
      case Listed(models) => SelectModel(Candidates(models))
  }

  /** The detection as app.py runs it: the candidate list is built by a loop
      that appends each supporting model's name. */
  method DetectModel(apiKey: Option<string>, catalogue: Catalogue) returns (r: Option<string>)
    ensures r == DetectedModel(apiKey, catalogue)
  {
    if !KeyPresent(apiKey) {
      return None;
    }
    match catalogue {
      case ListingFailed =>
        r := None;
      case Listed(models) =>
        var names: seq<string> := [];
        for i := 0 to |models|
          invariant names == Candidates(models[..i])
        {
          if GenerateContent in models[i].supportedGenerationMethods {
            names := names + [models[i].name];
          }
          assert models[..i + 1] == models[..i] + [models[i]];
          CandidatesAppend(models[..i], [models[i]]);
        }
        assert models[..|models|] == models;
        r := SelectModel(names);
    }
  }

  // ---------------------------------------------------------------------------
  // The candidate list

  /** Filtering distributes over concatenation, so the candidates keep the
      catalogue's order. */
  lemma {:induction false} CandidatesAppend(a: seq<ModelInfo>, b: seq<ModelInfo>)
    ensures Candidates(a + b) == Candidates(a) + Candidates(b)
  {
    if a == [] {
      assert a + b == b;
    } else {
      assert (a + b)[0] == a[0];
      assert (a + b)[1..] == a[1..] + b;
      CandidatesAppend(a[1..], b);
    }
  }

  /** A name is a candidate exactly when some catalogue entry with that name
      supports generateContent. */
  lemma {:induction false} CandidatesMembership(models: seq<ModelInfo>, n: string)
    ensures n in Candidates(models) <==> Offers(models, n)
  {
    if models != [] {
      CandidatesMembership(models[1..], n);
      if Offers(models[1..], n) {
        var i :| 0 <= i < |models[1..]| && models[1..][i].name == n && SupportsGenerateContent(models[1..][i]);
        assert models[i + 1] == models[1..][i];
      }
      if Offers(models, n) {
        var i :| 0 <= i < |models| && models[i].name == n && SupportsGenerateContent(models[i]);
        if i > 0 {
          assert models[1..][i - 1] == models[i];
        }
      }
    }
  }

  /** The first candidate is the name of the first entry that supports
      generateContent. */
  lemma {:induction false} CandidatesHead(models: seq<ModelInfo>, i: nat)
    requires i < |models| && SupportsGenerateContent(models[i])
    requires forall j :: 0 <= j < i ==> !SupportsGenerateContent(models[j])
    ensures Candidates(models) != [] && Candidates(models)[0] == models[i].name
  {
    if i > 0 {
      assert !SupportsGenerateContent(models[0]);
      CandidatesHead(models[1..], i - 1);
    }
  }

  /** The candidate list is empty exactly when no entry supports generateContent. */
  lemma {:induction false} CandidatesEmpty(models: seq<ModelInfo>)
    ensures Candidates(models) == [] <==> forall i :: 0 <= i < |models| ==> !SupportsGenerateContent(models[i])
  {
    if models != [] {
      CandidatesEmpty(models[1..]);
      if forall i :: 0 <= i < |models[1..]| ==> !SupportsGenerateContent(models[1..][i]) {
        forall i | 1 <= i < |models| ensures !SupportsGenerateContent(models[i]) {
          assert models[i] == models[1..][i - 1];
        }
      }
    }
  }

  // ---------------------------------------------------------------------------
  // The priority choice

  /** The catalogue's naming scheme: "models/" followed by a short name that
      does not itself contain "models/". */
  ghost predicate CatalogueName(n: string)
  {
    |n| >= |ModelsPrefix| && n[..|ModelsPrefix|] == ModelsPrefix && !Occurs(n[|ModelsPrefix|..], ModelsPrefix)
  }

  /** For a catalogue name the deletion yields its short name. */
  lemma ShortName(n: string)
    requires CatalogueName(n)
    ensures ModelsPrefix + DeleteAll(n, ModelsPrefix) == n
  {
    var t := n[|ModelsPrefix|..];
    assert n == ModelsPrefix + t;
    StripsLeadingOccurrence(ModelsPrefix, t);
  }

  /** With catalogue names, the chosen model is one of the candidates. */
  lemma SelectedIsCandidate(candidates: seq<string>)
    requires forall n :: n in candidates ==> CatalogueName(n)
    ensures SelectModel(candidates).Some? ==> ModelsPrefix + SelectModel(candidates).value in candidates
  {
    assert ModelsPrefix + Favourites[0] == "models/gemini-1.5-flash";
    assert ModelsPrefix + Favourites[1] == "models/gemini-1.5-pro";
    assert ModelsPrefix + Favourites[2] == "models/gemini-pro";
    if candidates != [] {
      ShortName(candidates[0]);
    }
  }

  /** Favourite i is chosen exactly when it is a candidate and no favourite
      ranked before it is. The "only if" direction needs catalogue names (see
      UnprefixedNameMimicsFavourite). */
  lemma StrictPriority(candidates: seq<string>, i: nat)
    requires i < |Favourites|
    requires forall n :: n in candidates ==> CatalogueName(n)
    ensures SelectModel(candidates) == Some(Favourites[i]) <==>
              ModelsPrefix + Favourites[i] in candidates
              && forall j :: 0 <= j < i ==> ModelsPrefix + Favourites[j] !in candidates
  {
    assert ModelsPrefix + Favourites[0] == "models/gemini-1.5-flash";
    assert ModelsPrefix + Favourites[1] == "models/gemini-1.5-pro";
    assert ModelsPrefix + Favourites[2] == "models/gemini-pro";
    SelectedIsCandidate(candidates);
  }

  /** A favourite that is a candidate is chosen over everything ranked below
      it, whatever else the list holds and whatever the names look like. */
  lemma FavouriteWins(candidates: seq<string>, i: nat)
    requires i < |Favourites|
    requires ModelsPrefix + Favourites[i] in candidates
    ensures SelectModel(candidates).Some? && SelectModel(candidates).value in Favourites[..i + 1]
  {
    assert ModelsPrefix + Favourites[0] == "models/gemini-1.5-flash";
    assert ModelsPrefix + Favourites[1] == "models/gemini-1.5-pro";
    assert ModelsPrefix + Favourites[2] == "models/gemini-pro";
  }

  /** Without the catalogue's naming scheme the "only if" of StrictPriority
      fails: a bare "gemini-1.5-pro" is picked by the first-candidate rule. */
  lemma UnprefixedNameMimicsFavourite(candidates: seq<string>)
    requires candidates == ["gemini-1.5-pro"]
    ensures SelectModel(candidates) == Some(Favourites[1])
    ensures ModelsPrefix + Favourites[1] !in candidates
  {
    assert ModelsPrefix + Favourites[1] == "models/gemini-1.5-pro";
    var s := candidates[0];
    assert !Occurs(s, ModelsPrefix) by {
      assert forall k :: 0 <= k < |s| ==> s[k] != ModelsPrefix[6];
      AbsentCharNoOccurrence(s, ModelsPrefix, 6);
    }
    DeleteAllWithoutOccurrence(s, ModelsPrefix);
  }

  /** When a favourite is present the choice depends only on which names are
      candidates, not on their order or repetition. */
  lemma FavouriteIgnoresOrder(c1: seq<string>, c2: seq<string>, i: nat)
    requires i < |Favourites| && ModelsPrefix + Favourites[i] in c1
    requires forall n :: n in c1 <==> n in c2
    ensures SelectModel(c1) == SelectModel(c2)
  {
    assert ModelsPrefix + Favourites[0] == "models/gemini-1.5-flash";
    assert ModelsPrefix + Favourites[1] == "models/gemini-1.5-pro";
    assert ModelsPrefix + Favourites[2] == "models/gemini-pro";
  }

  // ---------------------------------------------------------------------------
  // The detection as a whole

  /** Without a key the result is None whatever the catalogue would have said:
      the catalogue is never consulted. */
  lemma MissingKeyIgnoresCatalogue(apiKey: Option<string>, c1: Catalogue, c2: Catalogue)
    requires !KeyPresent(apiKey)
    ensures DetectedModel(apiKey, c1) == DetectedModel(apiKey, c2) == None
  {
  }

  /** Detection gives None exactly when there is no key, listing failed, or no
      listed model supports generateContent. */
  lemma DetectionNone(apiKey: Option<string>, catalogue: Catalogue)
    ensures DetectedModel(apiKey, catalogue).None? <==>
              !KeyPresent(apiKey) || catalogue.ListingFailed?
              || forall i :: 0 <= i < |catalogue.models| ==> !SupportsGenerateContent(catalogue.models[i])
  {
    if catalogue.Listed? {
      CandidatesEmpty(catalogue.models);
    }
  }

  /** A listed flash model that supports generateContent is always chosen. */
  lemma FlashWhenOffered(apiKey: Option<string>, models: seq<ModelInfo>)
    requires KeyPresent(apiKey) && Offers(models, "models/gemini-1.5-flash")
    ensures DetectedModel(apiKey, Listed(models)) == Some("gemini-1.5-flash")
  {
    CandidatesMembership(models, "models/gemini-1.5-flash");
  }

  /** With no favourite offered, the result is the first generateContent model's
      name with every "models/" deleted. */
  lemma FallbackToFirstCandidate(apiKey: Option<string>, models: seq<ModelInfo>, i: nat)
    requires KeyPresent(apiKey)
    requires i < |models| && SupportsGenerateContent(models[i])
    requires forall j :: 0 <= j < i ==> !SupportsGenerateContent(models[j])
    requires forall f :: f in Favourites ==> !Offers(models, ModelsPrefix + f)
    ensures DetectedModel(apiKey, Listed(models)) == Some(DeleteAll(models[i].name, ModelsPrefix))
  {
    CandidatesHead(models, i);
    assert ModelsPrefix + Favourites[0] == "models/gemini-1.5-flash";
    assert ModelsPrefix + Favourites[1] == "models/gemini-1.5-pro";
    assert ModelsPrefix + Favourites[2] == "models/gemini-pro";
    CandidatesMembership(models, "models/gemini-1.5-flash");
    CandidatesMembership(models, "models/gemini-1.5-pro");
    CandidatesMembership(models, "models/gemini-pro");
  }

  /** With catalogue names, the detected model is one the catalogue offers for
      generateContent. */
  lemma DetectedIsOffered(apiKey: Option<string>, models: seq<ModelInfo>)
    requires forall i :: 0 <= i < |models| ==> CatalogueName(models[i].name)
    ensures DetectedModel(apiKey, Listed(models)).Some? ==>
              Offers(models, ModelsPrefix + DetectedModel(apiKey, Listed(models)).value)
  {
    var c := Candidates(models);
    forall n | n in c ensures CatalogueName(n) {
      CandidatesMembership(models, n);
    }
    SelectedIsCandidate(c);
    if DetectedModel(apiKey, Listed(models)).Some? {
      CandidatesMembership(models, ModelsPrefix + DetectedModel(apiKey, Listed(models)).value);
    }
  }
}
