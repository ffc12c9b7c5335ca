# SpyTool model auto-detection, in Dafny

SpyTool is a Streamlit page that forwards prompts to Google's Gemini API. Its
only self-contained logic is how it picks the Gemini model to talk to
(`conseguir_modelo_valido` in app.py) and the sidebar default used when that
fails. This project models both and proves what they promise:

- **Candidate list** (`ModelDetection.Candidates`, built by the loop in
  `ModelDetection.DetectModel`): the names of the catalogue entries whose
  supported generation methods include `generateContent`, in catalogue order.
- **Priority choice** (`ModelDetection.SelectModel`): `models/gemini-1.5-flash`,
  then `models/gemini-1.5-pro`, then `models/gemini-pro`, answered by the short
  name. Otherwise the first candidate with `"models/"` deleted, or None when
  there are no candidates.
- **Name shortening** (`PyStr.DeleteAll`): Python's `str.replace(pat, "")`.
  It deletes every non-overlapping occurrence, scanning left to right. It does
  not merely strip a prefix: `"modelsmodels//"` becomes `"models/"`.
- **Detection** (`ModelDetection.DetectedModel`): None for a missing or empty
  key, without consulting the catalogue. None when listing raises. Otherwise
  the priority choice over the candidates.
- **Sidebar model** (`Sidebar.CurrentModel`): the detected name when detection
  gives a non-empty name, and `"gemini-pro"` otherwise.

The inputs the program reads from outside become parameters. The API key is an
`Option<string>`: None is a missing secret and `""` an empty text input, and
both are false in Python. The result of `genai.list_models()` is a
`Catalogue`: either the listed `(name, supported_generation_methods)` records
in order, or `ListingFailed` for any exception raised inside the `try` block.

In this revision of app.py there is no retry cascade over fallback model
names: a failed detection just yields None, and the sidebar then uses
`"gemini-pro"`. The model follows the code here.

Lemmas marked "with catalogue names" assume every name has the form
`"models/" + t`, where `t` does not contain `"models/"`. Google's catalogue
uses names of that form. Without this assumption, the "only if" half of the
priority rule fails: a bare `"gemini-1.5-pro"` candidate is chosen through the
first-candidate rule (`UnprefixedNameMimicsFavourite`).

## Model

| member | source | states |
|---|---|---|
| `PyStr.DeleteAll` | app.py:34 | `str.replace(pat, "")` never lengthens the string |
| `PyStr.DeleteAllWithoutOccurrence` | app.py:34 | a string that does not contain the pattern is returned unchanged |
| `PyStr.StripsLeadingOccurrence` | app.py:34 | `pat + t` becomes exactly `t` when `t` does not contain `pat`, so on catalogue names the replace is prefix stripping |
| `PyStr.DeleteAllLength` | app.py:34 | `len(s.replace(p, "")) == len(s) - len(p) * s.count(p)`: one pattern length is removed per non-overlapping occurrence |
| `PyStr.DeletionCanLeaveOccurrence` | app.py:34 | deletion is not prefix stripping: `"modelsmodels//"` becomes `"models/"`, which still contains the pattern |
| `PyStr.AbsentCharNoOccurrence` | app.py:34 | a string that lacks one character of the pattern does not contain the pattern, so `replace` leaves it as it is |
| `ModelDetection.CandidatesAppend` | app.py:23-26 | the candidate filter distributes over concatenation of catalogues, so candidates keep catalogue order |
| `ModelDetection.CandidatesMembership` | app.py:23-26 | a name is a candidate if and only if some catalogue entry with that name supports `generateContent` |
| `ModelDetection.CandidatesHead` | app.py:23-26 | the first candidate is the name of the first catalogue entry that supports `generateContent` |
| `ModelDetection.CandidatesEmpty` | app.py:23-26 | the candidate list is empty if and only if no entry supports `generateContent` |
| `ModelDetection.DetectModel` | app.py:18-38 | the loop that appends supporting names, followed by the priority choice, computes exactly `DetectedModel` |
| `ModelDetection.SelectModel` | app.py:28-35 | None if and only if there are no candidates; any other result is a favourite short name or the first candidate with `"models/"` deleted |
| `ModelDetection.ShortName` | app.py:34 | for a catalogue name, `"models/"` followed by the deletion's result gives back the original name |
| `ModelDetection.SelectedIsCandidate` | app.py:29-35 | with catalogue names, `"models/" + chosen` is always one of the candidates |
| `ModelDetection.StrictPriority` | app.py:29-31 | with catalogue names, favourite i is chosen if and only if it is a candidate and no higher-ranked favourite is |
| `ModelDetection.FavouriteWins` | app.py:29-31 | whatever the names, a favourite that is a candidate is chosen unless a higher-ranked favourite is chosen |
| `ModelDetection.UnprefixedNameMimicsFavourite` | app.py:29-34 | a bare `"gemini-1.5-pro"` candidate yields `"gemini-1.5-pro"`, although `"models/gemini-1.5-pro"` is absent |
| `ModelDetection.FavouriteIgnoresOrder` | app.py:29-31 | when a favourite is present, the choice depends only on which names are candidates, not on their order |
| `ModelDetection.DetectedModel` | app.py:18-38 | no key gives None; a non-None result implies a key, a successful listing and a non-empty candidate list |
| `ModelDetection.MissingKeyIgnoresCatalogue` | app.py:18-19 | without a key the result is None for every catalogue, so the catalogue is never consulted |
| `ModelDetection.DetectionNone` | app.py:18-38 | the result is None if and only if there is no key, listing failed, or no listed model supports `generateContent` |
| `ModelDetection.FlashWhenOffered` | app.py:23-29 | a catalogue that offers `models/gemini-1.5-flash` for `generateContent` yields `"gemini-1.5-flash"`, whatever else it lists |
| `ModelDetection.FallbackToFirstCandidate` | app.py:23-34 | with no favourite offered, the result is the first `generateContent` model's name with every `"models/"` deleted |
| `ModelDetection.DetectedIsOffered` | app.py:23-34 | with catalogue names, a detected model is one the catalogue offers for `generateContent` |
| `Sidebar.CurrentModel` | app.py:52-62 | the sidebar model is never empty, and it is either `"gemini-pro"` or the detected name |
| `Sidebar.DefaultWithoutDetection` | app.py:52-62 | with no key, or when listing fails, the sidebar model is `"gemini-pro"` |
| `Sidebar.DetectedNameUsed` | app.py:54-56 | a non-empty detected name is the sidebar model |
| `Sidebar.FlashSelectedInSidebar` | app.py:52-56 | a key whose catalogue offers flash for `generateContent` makes the sidebar model `"gemini-1.5-flash"` |
| `Sidebar.EmptyDetectedNameFallsBack` | app.py:54-59 | a catalogue whose only model is named `"models/"` gives a detected name of `""`, which Python treats as false, so the sidebar falls back to `"gemini-pro"` |

## Left out

- Page configuration, CSS, titles, tabs, buttons and messages (app.py:7-15, 41-42, 55, 58, 61, 76-83): these are UI rendering with no behaviour to state.
- Reading the key from `st.secrets` and the password input (app.py:45-49): the key is a parameter. The Apify token (app.py:46) is read but never used.
- `genai.configure` (app.py:20): it is a call into the client library and is not modelled. It sits outside the `try`, so an exception from it would escape the function. The model does not represent that case.
- `genai.list_models()` (app.py:24): it is a network call. Its outcome is the `Catalogue` parameter. An exception raised part-way through the iteration is the same `ListingFailed`, because the partial list is discarded either way.
- The error shown in the sidebar by the exception handler (app.py:37): this is a UI side effect. The model keeps only its None result.
- `consultar_gemini` (app.py:65-73): it is a thin wrapper over the remote generation call. It returns None for an empty key, the generated text on success, and `"Error: "` followed by the exception text on failure. It is not modelled further, because the remote call cannot be seen.
- Python truthiness of secret values that are not strings: secrets are taken to be strings or missing.
- The `ApifyClient` and `json` imports (app.py:3-4): they are unused in this file.
