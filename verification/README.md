# D1 row normaliser for the IATH exporter

This project models the data-cleaning step of the exporter in
`converter_scripts/convert_db_to_iath.py`: the function
`convert_d1_to_iath_v1_compatible`, which takes one knowledge-tile row from
the D1 database export (a loosely-typed dictionary) and reshapes it into the
four-section record that `main` then hands to the IATH encoder. The record has a `metadata`,
`coordinates`, `content` and `verification` section. It also models the list
comprehension that applies the function to every exported tile.

- `json_value.dfy` (module `JsonValue`) holds the decoded JSON scalars of a row
  (`JVal`), the row type `map<string, JVal>`, Python's `dict.get` and Python's
  `str()` of a scalar.
- `normaliser.dfy` (module `Normaliser`) holds the output record, the
  conversion `Convert`, the batch `ConvertAll` and two reference forms:
  `RecoverContent`, which inverts the `thinking_process` f-string, and
  `Defaults`/`FromComplete`, which read the row laid over a table of defaults.
- `normaliser_properties.dfy` (module `NormaliserProperties`) holds the lemmas.

The subtle point of the source is Python's `dict.get(key, default)`. The
default is used only when the key is absent. A present `null` or empty
string is copied unchanged, so `knowledge_id`, `topic` and `verification_status`
can come out `None` or empty.

The clock reading `datetime.now().isoformat()` is a parameter `now`. The
comprehension calls the normaliser once per tile, so the clock is read once per
tile. `ConvertAll` therefore takes one reading per row.

The normaliser does not make `knowledge_id` or `topic` non-empty. Line 12 gives
`None` for a row without `id`, and line 23 copies a present empty `topic`.
`NormaliserProperties.IdentityMayStayEmpty` shows both on concrete rows.

## Model

| member | source | states |
|---|---|---|
| Normaliser.Convert | converter_scripts/convert_db_to_iath.py:8-47 | every row converts, without failure, to a record whose `medical_space` and `meta_space` have three entries, whose `meta_space` is `[0.0, 0.0, 0.0]`, whose `initial_certainty` is 0.5 (inside [0, 1]), whose `reviewers` list is empty, and whose `thinking_process` is the import prefix followed by `str()` of `final_response` |
| Normaliser.ConvertAll | converter_scripts/convert_db_to_iath.py:79 | the batch has one record per row, in the same order, and record i is the conversion of row i with the i-th clock reading |
| JsonValue.Get | converter_scripts/convert_db_to_iath.py:12-43 | `row.get(key, default)` is the row's value when the key is present, whatever that value is, and the default only when the key is absent; equivalently, it reads the key from the row laid over a one-entry dictionary holding the default |
| JsonValue.PyStr | converter_scripts/convert_db_to_iath.py:39 | what the f-string prints for a value: `None` for null, `True`/`False` for a boolean, a number's own printed text, and a string unchanged |
| Normaliser.Defaults | converter_scripts/convert_db_to_iath.py:12-43 | the default table has exactly the eight keys the output reads: `id` to `None`, `content` to `''`, `topic` to `'Untitled Topic'`, `created_at` to `now`, `verification_status` to `'pending_review'`, and each coordinate key to `0.0` |
| Normaliser.RecoverContent | converter_scripts/convert_db_to_iath.py:39 | a text yields a content exactly when it starts with `[Auto-imported]\n`, and the text is that prefix followed by the content it yields |
| NormaliserProperties.KnowledgeIdIsRowId | converter_scripts/convert_db_to_iath.py:12-22 | `knowledge_id` is the row's `id` value, and `None` when `id` is absent |
| NormaliserProperties.AbsentIdIsLikeNullId | converter_scripts/convert_db_to_iath.py:12 | removing `id` and setting `id` to `null` give the same record: no identifier is invented |
| NormaliserProperties.CoordinatePassThrough | converter_scripts/convert_db_to_iath.py:27-31 | each `medical_space` entry is the untransformed value of `coordinates_x`/`_y`/`_z` when present and `0.0` when absent; it is `0.0` exactly when the key is absent or holds `0.0` |
| NormaliserProperties.DefaultsOnlyWhenAbsent | converter_scripts/convert_db_to_iath.py:23-43 | `topic`, `created_at` and `status` are the row's values when the keys are present and `'Untitled Topic'`, `now`, `'pending_review'` when absent; each equals its default exactly when the key is absent or already holds the default |
| NormaliserProperties.NullAndEmptyAreNotDefaulted | converter_scripts/convert_db_to_iath.py:15-43 | on the row with a `null` topic and content and empty `created_at` and `verification_status`, those values are copied rather than replaced by defaults, and `thinking_process` is `[Auto-imported]\nNone` |
| NormaliserProperties.RecoverContentInverse | converter_scripts/convert_db_to_iath.py:39 | stripping the import prefix recovers exactly the text placed behind it |
| NormaliserProperties.ContentDerivation | converter_scripts/convert_db_to_iath.py:15-40 | `final_response` is the row's `content` or `''`; the printed content can be read back from `thinking_process`; for a string content `thinking_process` is the prefix followed by it, and for an absent one it is the prefix alone |
| NormaliserProperties.ConvertIsOverlayOnDefaults | converter_scripts/convert_db_to_iath.py:12-47 | the record equals the one read from the row laid over the dictionary of defaults, which covers every key the output uses |
| NormaliserProperties.OnlyRelevantKeysMatter | converter_scripts/convert_db_to_iath.py:8-47 | two rows that agree on `id`, `content`, `topic`, `created_at`, the three coordinates and `verification_status`, presence included, give the same record |
| NormaliserProperties.IrrelevantKeyIgnored | converter_scripts/convert_db_to_iath.py:18 | setting or removing any other key, such as `author_mark` (read into `author_mark_str` and never used), leaves the record unchanged |
| NormaliserProperties.RelevantKeysMatter | converter_scripts/convert_db_to_iath.py:20-47 | two rows holding different present values for one of those keys give different records |
| NormaliserProperties.ConvertEqualIff | converter_scripts/convert_db_to_iath.py:12-47 | two rows give the same record if and only if, each laid over the default table, they agree on all eight keys the output reads |
| NormaliserProperties.EmptyRowGivesDefaults | converter_scripts/convert_db_to_iath.py:20-47 | the empty row converts to the record made only of defaults |
| NormaliserProperties.IdentityMayStayEmpty | converter_scripts/convert_db_to_iath.py:12-23 | on the empty row `knowledge_id` is `None`, and on the row whose only key is an empty `topic` that empty `topic` is kept |
| NormaliserProperties.ConvertAllAppend | converter_scripts/convert_db_to_iath.py:79 | converting two batches joined together gives the two conversions joined together |
| NormaliserProperties.ConvertAllWellShaped | converter_scripts/convert_db_to_iath.py:79 | every record of a converted batch has three-entry coordinate spaces, a zero `meta_space`, a certainty in [0, 1] and no reviewers |

## Left out

- The IATH encoder (`IathEncoder.encode_batch`, line 83) and its byte layout: the `iath_encoder` module is not part of this model.
- `main`'s HTTP fetch, `raise_for_status` and JSON-decode error handling (lines 56-66): network I/O and exception handling.
- Progress printing and the unused `users` list (lines 54, 69, 71, 74, 88-89): logging only.
- Reading `knowledge_tiles` with an empty-list default (line 68) and returning early when there are no tiles (lines 73-75): control flow of `main` around the encoder call, which is not part of this model.
- Tiles that are not JSON objects: `.get` at line 12 would raise `AttributeError`; the row type admits only string-keyed dictionaries.
- Writing the output file and reading its size (lines 85-89): file-system I/O.
- `datetime.now()` (line 24): nondeterministic; it is the parameter `now`. Python evaluates it even when `created_at` is present, which does not affect the result.
- Numbers are opaque: `Num` carries the text Python's `str()` prints for it, and no floating-point arithmetic is modelled. The defaults `0.0` are `Num("0.0")`; `initial_certainty` is the exact real 0.5, which a double represents exactly.
- NormaliserProperties.CoordinatePassThrough: equality of values is structural, which is stricter than Python's `==`. The int `0`, `-0.0` and `False` are different from `0.0` here, though Python calls them equal; so "is `0.0`" means the float `0.0` exactly.
- NormaliserProperties.RelevantKeysMatter: "different values" means different stored values, not values Python's `==` calls different (`True` and `1`, say).
- Nested arrays and objects as row values: a D1 row is flat, and Python's `repr` of lists and dictionaries (used when such a content is printed) is not modelled.
