# Settings store and latest-reading queries of the weather-station backend

This project models the two pieces of logic in the backend's query layer.

**The settings store.** `settings` is a table of rows `(key, value, type)`. All three columns are `VARCHAR(255) NOT NULL`, and `key` is the primary key. It is modelled as a map from key to row.

- `get_setting_by_key` (`SettingQueries.GetSettingByKey`) reads one row and converts its text by its type tag:
  - `"int"` goes through Python's `int()` (`PyText.ParseInt`), which can raise;
  - `"float"` goes through `float()`, left opaque;
  - `"bool"` is true when the lower-cased text is `"true"`, `"1"` or `"yes"`;
  - any other tag returns the text unchanged.
  - A missing key gives `None`.
  - A key holding a NUL character makes the query itself raise, because PostgreSQL refuses that character in any text parameter.
- `save_multiple_settings` (`SettingQueries.SettingStore.SaveMultipleSettings`) patches the table in place:
  - It walks the payload in order and skips items whose key is absent.
  - For each other item it assigns every field the client sent, except `key`, through `model_dump(exclude_unset=True)`.
  - Then it commits.
  - Some writes make the next flush raise, at the next lookup or at the commit: a NULL `value`, a NULL `type`, a value holding a NUL character, or a value over 255 characters whose extra characters are not all spaces. An item whose key holds a NUL character makes its own lookup raise. In each case the session is closed without committing, so the table is unchanged.
  - PostgreSQL silently cuts a value over 255 characters whose extra characters are all spaces to 255 characters (`SettingQueries.StoreColumn`).

The method is specified by the function `ApplyPatches`, and the lemmas beside it prove these properties:
- no rows are inserted;
- rows not named by any item are untouched;
- the last item for a key sets its value;
- the last item that sent a type sets the type;
- the batch fails exactly in the cases above.

**Latest-row selection.** Each sensor table (`central`, `outdoor`, `external_weather`) is a sequence of rows with unique integer ids.

- `get_last_data` (`WeatherQueries.GetLastData`) is `ORDER BY id DESC LIMIT 1`. It returns `None` exactly for an empty table; otherwise it returns a row of the table whose id is at least every other id.
- `get_last_data_for_sensors` (`WeatherQueries.GetLastDataForSensors`) loops over the three tables and fills a dictionary keyed by table name.

Both queries take the tables as values, so they cannot change them.

Files:
- `wrappers.dfy`: `Option` and `Result`.
- `py_text.dfy`: Python's base-10 `int()`, `str()` on integers, the whitespace `int()` skips (`str.isspace()` without U+001C to U+001F) and `lower()`.
- `setting_queries.dfy`: the settings store.
- `weather_queries.dfy`: the sensor tables and their queries.

## Model

| member | source | states |
|---|---|---|
| `SettingQueries.GetSettingByKey` | app/utils/queries/setting.py:8-35 | A key holding a NUL character makes the query raise. For any other key, a missing key gives `None`, and only a missing key does. The read then fails exactly when the tag is `"int"` and `int()` rejects the stored text (the float branch is kept opaque). Otherwise it gives the converted value. |
| `SettingQueries.ConvertValue` | app/utils/queries/setting.py:27-35 | No contract of its own. It is the if/elif chain on the type tag; `GetSettingByKey`'s ensures, `ConvertBoolIff`, `ConvertBoolExamples`, `ConvertIntRoundTrip`, `ConvertIntRejects` and `ConvertOtherTags` state its behaviour. |
| `SettingQueries.StoreColumn` | app/db/models/setting.py:15-19 | What a `VARCHAR(255) NOT NULL` column stores. A stored value is never NULL, holds no NUL character and has at most 255 characters. It is a prefix of the written text, and only spaces are cut. A text that already fits is stored as it is. |
| `SettingQueries.ConvertBoolIff` | app/utils/queries/setting.py:32-33 | A `"bool"` setting is true if and only if its text equals `"true"` or `"yes"` ignoring case, or is `"1"`. |
| `SettingQueries.ConvertBoolExamples` | app/utils/queries/setting.py:32-33 | `"TRUE"`, `"Yes"` and `"1"` read as true. `"0"`, `"no"`, `""` and `" true"` read as false. |
| `SettingQueries.ConvertIntRoundTrip` | app/utils/queries/setting.py:28-29 | An `"int"` setting whose text is `str(n)` reads back as `n`. |
| `SettingQueries.ConvertIntRejects` | app/utils/queries/setting.py:28-29 | An `"int"` setting holding `"abc"` or `""` is an error (`ValueError`), not a default value. |
| `SettingQueries.ConvertOtherTags` | app/utils/queries/setting.py:34-35 | With any tag other than `int`, `float` and `bool` (e.g. `"str"` or an unknown tag), the stored text is returned unchanged. |
| `SettingQueries.StoreColumnTrailingSpaces` | app/db/models/setting.py:15-19 | A value that fits, followed by any number of spaces, is stored with as many of those spaces as fit in 255 characters, instead of raising. |
| `SettingQueries.StoreColumnRejectsOverlong` | app/db/models/setting.py:15-19 | A value with a non-space character past position 255 is refused. |
| `SettingQueries.StoreColumnRejectsNul` | app/db/models/setting.py:15-19 | A value holding a NUL character is refused, whatever its length. |
| `SettingQueries.ModelDump` | app/utils/queries/setting.py:54 | No contract of its own. It is `model_dump(exclude_unset=True)`: `key` and `value` always, `type` only when sent. `PatchOneRow` and `ApplyPatchesTypeKept` state its effect. |
| `SettingQueries.AssignFields` | app/utils/queries/setting.py:54-56 | No contract of its own. It is the `setattr` loop over the dumped fields; `PatchOneRow` states its result and when it fails. |
| `SettingQueries.ApplyItem` | app/utils/queries/setting.py:50-56 | No contract of its own. It is one iteration of the payload loop: lookup, skip when absent, assign. `PatchOneRow` and `ApplyPatchesFailsIff` state its behaviour. |
| `SettingQueries.ApplyPatches` | app/utils/queries/setting.py:49-58 | No contract of its own. It is the whole batch. `ApplyPatchesKeys`, `ApplyPatchesValid`, `ApplyPatchesFailsIff`, `ApplyPatchesUntouched`, `ApplyPatchesLastValue`, `ApplyPatchesLastType` and `ApplyPatchesTypeKept` state its behaviour, and `SaveMultipleSettings` is proved against it. |
| `SettingQueries.PatchOneRow` | app/utils/queries/setting.py:54-56 | Patching a row keeps its key. It always assigns `value`, as the column stores it. It assigns `type` only when the client sent it. It succeeds exactly when the column accepts the value and the type is not NULL. |
| `SettingQueries.ApplyPatchesKeys` | app/utils/queries/setting.py:49-53 | A successful batch leaves the table's key set unchanged. Items for absent keys are skipped, and nothing is inserted. |
| `SettingQueries.ApplyPatchesValid` | app/utils/queries/setting.py:54-56 | A successful batch keeps every row under its own key, so `key` is never overwritten. No column becomes NULL, holds a NUL character, or grows longer than 255 characters. |
| `SettingQueries.ApplyPatchesFailsIff` | app/utils/queries/setting.py:49-58 | The batch fails if and only if one of two things happens. Some item's key holds a NUL character, so its lookup raises. Or some item whose key is in the table sends a `value` or a `type` that its `NOT NULL VARCHAR(255)` column refuses. |
| `SettingQueries.ApplyPatchesUntouched` | app/utils/queries/setting.py:49-56 | A row whose key no payload item names is unchanged. |
| `SettingQueries.ApplyPatchesLastValue` | app/utils/queries/setting.py:49-56 | A row's new value is that of the last payload item naming its key, as the column stores it. Later items win. |
| `SettingQueries.ApplyPatchesLastType` | app/utils/queries/setting.py:49-56 | A row's new type is that of the last payload item naming its key that sent a type. |
| `SettingQueries.ApplyPatchesTypeKept` | app/utils/queries/setting.py:54-56 | When no item naming a key sends a type, that row keeps its old type. |
| `SettingQueries.SavedIntReadsBack` | app/utils/queries/setting.py:28-56 | Saving `str(n)` with type `int` under an existing key (without NUL), then reading that key, gives `n`. |
| `SettingQueries.SettingStore.SaveMultipleSettings` | app/utils/queries/setting.py:38-58 | The method commits exactly when `ApplyPatches` succeeds. The new table is `ApplyPatches` of the old one, or the old table unchanged when the flush fails. The table stays well formed. |
| `PyText.ParseInt` | app/utils/queries/setting.py:29 | No contract of its own. It is `int()` on a base-10 literal. `ParseIntOfFormat` and the `ParseIntRejects…`, `ParseIntLeadingZeros` and `ParseIntUnderscores` lemmas state its behaviour. |
| `PyText.ParseIntOfFormat` | app/utils/queries/setting.py:29 | `int(ws + str(n) + ws) == n` for any padding made of the whitespace `int()` skips: ASCII `\t \n \v \f \r` and space, and non-ASCII `str.isspace()` characters. |
| `PyText.ParseIntRejectsBlank` | app/utils/queries/setting.py:29 | `int("")` and `int("   ")` raise. |
| `PyText.ParseIntRejectsWord` | app/utils/queries/setting.py:29 | `int("abc")` raises. |
| `PyText.ParseIntRejectsFraction` | app/utils/queries/setting.py:29 | `int("1.5")` raises. |
| `PyText.ParseIntRejectsDoubleUnderscore` | app/utils/queries/setting.py:29 | `int("1__0")` raises. |
| `PyText.ParseIntRejectsSpacedSign` | app/utils/queries/setting.py:29 | `int("- 5")` raises. |
| `PyText.ParseIntLeadingZeros` | app/utils/queries/setting.py:29 | `int("007") == 7`. |
| `PyText.ParseIntUnderscores` | app/utils/queries/setting.py:29 | `int(" -1_000\n") == -1000`. |
| `PyText.ParseIntRejectsSeparators` | app/utils/queries/setting.py:29 | `int("\x1c5")` and `int("5\x1f")` raise: `int()` does not skip U+001C to U+001F, although `str.isspace()` holds for them. |
| `PyText.Lower` | app/utils/queries/setting.py:33 | No contract of its own. It is `lower()` on ASCII letters; `LowerEqualIff` and `ConvertBoolIff` state what it decides. |
| `PyText.LowerEqualIff` | app/utils/queries/setting.py:33 | For an all-lower-case `t`, `s.lower() == t` if and only if `s` equals `t` ignoring case. |
| `WeatherQueries.GetLastData` | app/utils/queries/weather.py:10-26 | The result is `None` exactly when the table is empty. Otherwise it is a row of the table whose id is at least every id in it. |
| `WeatherQueries.LatestIsUnique` | app/db/models/weather.py:11-16 | With unique primary-key ids, any row of greatest id is the one `get_last_data` returns. |
| `WeatherQueries.GetLastDataOrderIndependent` | app/utils/queries/weather.py:24 | With unique ids, the result depends only on the table's rows, not on their stored order. |
| `WeatherQueries.GetLastDataAfterInsert` | app/db/models/weather.py:11-16 | A row inserted with an id above all existing ids (autoincrement) becomes the latest row. |
| `WeatherQueries.LatestRowKinds` | app/endpoints/weather.py:36-42 | In a well-formed database, each table's latest row is a row of that table's own model. The current-weather endpoint validates each entry as that model. |
| `WeatherQueries.GetLastDataForSensors` | app/utils/queries/weather.py:29-47 | The dictionary's keys are exactly `central`, `outdoor` and `external_weather`. Each entry is `get_last_data` of that table, including `None` for an empty one. |

## Left out

- The `float` branch of `get_setting_by_key` (app/utils/queries/setting.py:30-31) returns `FloatValue(text)`. Floating-point parsing and the `ValueError` of `float()` are not modelled.
- `PyText.ParseInt` accepts only ASCII digits. Python's `int()` also accepts other Unicode decimal digits, and CPython 3.11 and later reject literals of more than 4300 digits. Neither is modelled.
- `PyText.Lower` lowers only ASCII letters. Unicode case mapping is not modelled.
- `SettingQueries.SettingStore.SaveMultipleSettings` reports the failing flush as `committed == false`. It does not model the exception or the HTTP error the caller sees.
- Async execution, the session's identity map, and transactions are modelled as sequential updates of a working copy that is committed at the end.
- Column lengths and NUL characters are checked only for `value` and for the looked-up key. A sent `type` is one of the four enum names, so it always fits.
- Of PostgreSQL's text rules, only NUL rejection, the 255-character limit and the dropping of excess trailing spaces are modelled. Encoding conversion is not.
- `WeatherQueries.GetLastDataForSensors` omits the `print(result)` of the source, which is console output.
- Sensor readings keep `NUMERIC` columns as integers in tenths and timestamps as integers. Ids are unbounded integers rather than 32-bit `INTEGER`s. None of these affect which row is latest.
- `insert_sensor_data`, `save_external_weather` and `fetch_part_data` are not part of this model.
- The external weather fetch, the prediction model, the database backup, the Telegram bot, the HTTP endpoints, session management and configuration are outside the modelled core. They are network, subprocess, floating-point or framework code.
