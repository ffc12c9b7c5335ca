/**
 The model the sidebar settles on (app.py, the auto-detection block of the
 sidebar): the detected model when detection gives a truthy name, otherwise
 "gemini-pro". The key is whatever the secrets store or the password input
 supplied.
 */
module Sidebar {
  import opened Wrappers
  import opened ModelDetection
  import opened PyStr

  const DefaultModel: string := "gemini-pro"

  /** `modelo_actual`. Detection runs only when the key is truthy, and its
      result is used only when it is truthy: an empty name falls back too. */
  function CurrentModel(apiKey: Option<string>, catalogue: Catalogue): (r: string)
    ensures r != []
    ensures r == DefaultModel || DetectedModel(apiKey, catalogue) == Some(r)
  {
    if KeyPresent(apiKey) then
      var detected := DetectedModel(apiKey, catalogue);
      if detected.Some? && detected.value != "" then detected.value else DefaultModel
    else DefaultModel
  }

  /** Without a key, or when listing fails, the sidebar uses "gemini-pro". */
  lemma DefaultWithoutDetection(apiKey: Option<string>, catalogue: Catalogue)
    requires !KeyPresent(apiKey) || catalogue.ListingFailed?
    ensures CurrentModel(apiKey, catalogue) == DefaultModel
  {
  }

  /** A non-empty detected name is used as it is. */
  lemma DetectedNameUsed(apiKey: Option<string>, catalogue: Catalogue, n: string)
    requires DetectedModel(apiKey, catalogue) == Some(n) && n != ""
    ensures CurrentModel(apiKey, catalogue) == n
  {
  }

  /** A key whose catalogue offers flash for generateContent makes the sidebar
      use "gemini-1.5-flash". */
  lemma FlashSelectedInSidebar(apiKey: Option<string>, models: seq<ModelInfo>)
    requires KeyPresent(apiKey) && Offers(models, "models/gemini-1.5-flash")
    ensures CurrentModel(apiKey, Listed(models)) == "gemini-1.5-flash"
  {
    FlashWhenOffered(apiKey, models);
  }

  /** Detection may give the empty name, for a catalogue whose only
      generateContent model is called "models/"; Python treats "" as false,
      so the sidebar falls back to "gemini-pro" even though detection
      succeeded. */
  lemma EmptyDetectedNameFallsBack(apiKey: Option<string>, models: seq<ModelInfo>)
    requires KeyPresent(apiKey)
    requires models == [ModelInfo(ModelsPrefix, [GenerateContent])]
    ensures DetectedModel(apiKey, Listed(models)) == Some("")
    ensures CurrentModel(apiKey, Listed(models)) == DefaultModel
  {
    assert Candidates(models) == [ModelsPrefix] by {
      assert Candidates(models[1..]) == [];
    }
    StripsLeadingOccurrence(ModelsPrefix, "");
    assert ModelsPrefix + "" == ModelsPrefix;
  }
}
