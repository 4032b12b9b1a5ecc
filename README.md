# Toronto bike-share pressure predictor: verified core

The dashboard predicts, two hours ahead, whether a bike-share station will be
short of bikes ("Low Supply"), balanced ("Normal") or short of docks ("High
Supply"). This project models the deterministic logic around the trained
classifier and proves properties of it:

- **Feature-vector builder** (`FeatureBuilder.PrepareInput`). It starts from a
  one-row frame over the model's feature names, all 0. It writes the sidebar
  values and three derived 0/1 flags by column name. Then it sets the one-hot
  column `dist_<district>` of the selected district, but only when that
  column already exists. A frame is an ordered sequence of named columns
  (`Frames`). Assigning a name that exists overwrites that column where it
  stands. Assigning a missing name appends a column at the end, as pandas
  does. The method updates a local row in the source's statement order.
  `IsFeatureRow` is the reference it is proved against: the schema's names
  first, then the directly assigned names the schema lacks. Every column
  holds `FeatureValue` of its name.
- **District choices** (`Districts`). The selectable districts are read back
  from the `dist_` feature names with `str.replace`. That call removes every
  occurrence of `dist_`, not only the leading one. The round trip from a
  column to its district and back holds exactly when the district name has
  no `dist_` inside it.
- **Decision mapper** (`Decision`). If the probability of "Normal" is
  strictly above 0.30, the final state is forced to 1. Otherwise it is the
  classifier's prediction. The final state is then looked up in the
  three-entry state table. The confidence is the probability of the final
  state, so after an override it is the "Normal" probability. The action text
  and the forecast hour (`(hour + 2) % 24`) are modelled here too. The
  classifier's `predict` and `predict_proba` outputs are parameters. The two
  ways the Python block can fail are modelled as `Failure` values: an index
  past the end of the probability vector, and a state missing from the table.
- **Station plan** (`Stations`). Inventory rows without both coordinates are
  dropped. The rows of the selected district are kept in inventory order. The
  core-zone flag is raised when one of those rows has tier `Tier-1-Core`. The
  plan is either a "no station data" warning or the flag, the action and the
  station count.

Probabilities and precipitation are only compared with constants, so they
are modelled as exact `real`s. Integer inputs are unbounded `int`s, and every
frame value is a `real`. The builder is defined for every sidebar value, so
the slider ranges are not preconditions of `PrepareInput`; only the
forecast-hour lemmas assume the hour slider's range 0-23.

A few facts about the code that the model keeps as they are:
- The decision block has one policy: the 0.30 override towards "Normal".
- The probabilities are not checked to sum to 1.
- The action texts are "ADD BIKES", "CLEAR DOCKS" and "MONITOR".
- The only derived features are the three 0/1 flags and the district one-hot.
- A final state outside 0..2 fails at the `states` lookup
  (`Failure(UnknownState(s))`); a probability vector too short for index 1,
  or for the final state, fails at `probs[...]`
  (`Failure(ProbabilityIndex(i))`).

## Model

| member | source | states |
|---|---|---|
| `Frames.ZeroFrame` | app.py:46 | the new frame has exactly the feature names, in order, and every column holds 0 |
| `Frames.Assigned` | app.py:47-59 | assigning by name keeps the length when the name is present and adds one column when it is absent; every existing column keeps its label in place; a new column is appended at the end with the name and the value |
| `Frames.AssignedEffect` | app.py:47-59 | assigning by name keeps the labels when the name is present and appends it at the end when absent; columns with that name hold the value and every other column is untouched |
| `Districts.DistColumn` | app.py:57 | the one-hot column name starts with `dist_` and the rest of it is the district |
| `Districts.StripDist` | app.py:32 | `replace('dist_', '')` never lengthens a name |
| `Districts.StripDistShortens` | app.py:32 | `replace('dist_', '')` strictly shortens a name that contains `dist_` |
| `Districts.StripDistNoTag` | app.py:32 | `replace('dist_', '')` leaves a name with no `dist_` in it unchanged |
| `Districts.DistColumnRoundTrip` | app.py:32 | for a `dist_` column, prefixing its derived district with `dist_` gives the column back if and only if the rest of the name has no further `dist_` |
| `Districts.DistrictOfColumnOffered` | app.py:32-33 | a schema column `dist_<d>`, with no `dist_` inside `d`, makes `d` one of the district choices |
| `Districts.DistrictChoices` | app.py:32 | there are no more choices than features, and the list is empty if and only if no feature starts with `dist_` |
| `Districts.DistrictChoicesComplete` | app.py:32 | every feature that starts with `dist_` offers its stripped name as a choice |
| `Districts.DistrictChoicesFromFeatures` | app.py:32 | every district choice is the stripped name of some `dist_` feature |
| `FeatureBuilder.DirectAssignments` | app.py:47-55 | the nine unconditional assignments write the columns hour, cap_feature, flow_3h_rolling, temp, precip, wind_spd, is_rush_hour, is_raining and is_windy, in that order |
| `FeatureBuilder.Missing` | app.py:47-55 | a name is appended by the assignments exactly when it is assigned and absent from the schema |
| `FeatureBuilder.PrepareInput` | app.py:45-60 | the built row lists the schema's names in order, then the assigned names the schema lacks; every column holds the sidebar value, flag, one-hot 1 or 0 that its name calls for |
| `FeatureBuilder.FeatureRowUnique` | app.py:45-60 | the row is determined by the schema and the sidebar values |
| `FeatureBuilder.SchemaColumnsKept` | app.py:46-59 | every schema name keeps its position; a schema column that is neither assigned directly nor the selected district's column stays 0 |
| `FeatureBuilder.AppendedColumns` | app.py:47-59 | only directly assigned names missing from the schema are appended, every directly assigned name ends up present, and no `dist_` column is ever appended |
| `FeatureBuilder.DistrictOneHot` | app.py:57-59 | a `dist_` column holds 1 if and only if it is the selected district's column; the selected column is 1 when the schema has it; all `dist_` columns are 0 when it does not |
| `FeatureBuilder.AtMostOneDistrict` | app.py:57-59 | with distinct schema names, at most one `dist_` column holds 1 |
| `FeatureBuilder.InputsReadBack` | app.py:47-52 | hour, capacity, 3-hour flow, temperature, precipitation and wind speed read back unchanged from their columns |
| `FeatureBuilder.DerivedFlags` | app.py:53-55 | `is_rush_hour` is 1 if and only if the hour is in 7-9 or 16-18; `is_raining` is 1 if and only if precipitation > 0.2; `is_windy` is 1 if and only if wind speed > 25; each is 0 otherwise |
| `FeatureBuilder.ChosenDistrictOneHot` | app.py:57-59 | choosing the district of schema column `dist_<d>` (with no `dist_` inside `d`) is offered by the district list, sets exactly that column to 1 and every other `dist_` column to 0 |
| `Decision.FinalState` | app.py:65-71 | fails with index 1 if and only if there are fewer than two probabilities; otherwise the state is 1 when "Normal" exceeds 0.30 and the prediction when it does not; it departs from the prediction only to become 1 under the override |
| `Decision.Decide` | app.py:65-91 | succeeds if and only if there are at least two probabilities and either "Normal" exceeds 0.30 or the prediction is a table key with a probability; the result's state is a table key, its info is that entry, its confidence is the probability of the final state; an override yields state 1 whatever the prediction; without one the state is the prediction; a short vector fails with `ProbabilityIndex(1)`, a prediction outside the table with `UnknownState` of it, and a table key with no probability with `ProbabilityIndex` of it |
| `Decision.StatesTable` | app.py:73-77 | the state table `Decision.States` has exactly the keys 0, 1 and 2, coloured error, success and info, with three distinct labels |
| `Decision.OverrideConfidence` | app.py:68-91 | when the override fires the decision succeeds, is labelled NORMAL, and its confidence exceeds 0.30 |
| `Decision.DecideIdempotent` | app.py:68-71 | feeding the final state back as the prediction gives the same decision |
| `Decision.ActionPlan` | app.py:131 | the action is ADD BIKES if and only if the state is 0, CLEAR DOCKS if and only if it is 2, and MONITOR for every other state |
| `Decision.ActionAgreesWithStates` | app.py:131 | ADD BIKES goes with the error (low supply) state, CLEAR DOCKS with the info (high supply) state, MONITOR with the success (normal) state, each both ways |
| `Decision.ForecastHour` | app.py:83 | the forecast hour is on the 24-hour clock, 0 to 23 |
| `Decision.ForecastHourWraps` | app.py:83 | for hours 0-23 the forecast hour is the hour + 2, wrapping 22 to 0 and 23 to 1 |
| `Decision.ForecastHourInjective` | app.py:83 | distinct hours 0-23 have distinct forecast hours |
| `Stations.DropMissingCoords` | app.py:21 | a row is kept if and only if both of its coordinates are present, and the result is no longer than the inventory |
| `Stations.DropMissingCoordsAll` | app.py:21 | a table whose rows all have both coordinates comes back unchanged |
| `Stations.DropMissingCoordsAppend` | app.py:21 | dropping rows keeps inventory order (it distributes over concatenation) |
| `Stations.LocalStations` | app.py:99 | a row is a local station if and only if it is in the inventory with the selected district |
| `Stations.LocalStationsAppend` | app.py:99 | the district filter keeps inventory order (it distributes over concatenation) |
| `Stations.LocalStationsIdempotent` | app.py:99 | filtering by the district twice is the same as filtering once |
| `Stations.LocalStationsAll` | app.py:99 | filtering a table whose rows all have the district returns it unchanged |
| `Stations.IsCoreZone` | app.py:102 | the flag holds if and only if some local row has tier Tier-1-Core |
| `Stations.CoreZoneIff` | app.py:102 | the core-zone flag holds if and only if some inventory row of the district has tier Tier-1-Core |
| `Stations.DeploymentPlan` | app.py:99-134 | the warning names the selected district; a deployment counts between 1 and the inventory size of stations and carries the action of the final state |
| `Stations.DeploymentPlanMeaning` | app.py:99-134 | the plan is the no-data warning if and only if no inventory row has the district; otherwise it carries the core-zone flag, the action of the final state and the number of local rows |

## Left out

- Streamlit widgets and layout are not modelled, because they are UI only. This covers the page setup, sidebar widgets, buttons, columns, banners, metrics, progress bar, tabs, data-frame views and the debug expander. The widget values are parameters (`FeatureBuilder.Sidebar`, the selected district, the final state).
- The colour-to-banner dispatch (app.py:84-86) is not modelled, because it is UI only. The colour string itself is part of the state table.
- Loading the model and the feature list with `joblib`, and Streamlit's caching, are not modelled, because they are file I/O and framework caching. The feature list is a parameter.
- The classifier's `predict` and `predict_proba` are not modelled, because they are foreign calls into a trained artifact. Their outputs are parameters of `Decision.Decide`.
- `pd.read_csv` and `pd.to_numeric(..., errors='coerce')` are not modelled, because they are library parsing. A coordinate that did not parse is `None`. Only the `dropna` step is modelled.
- The pydeck map and its mean-of-coordinates centre are not modelled, because they are rendering and floating-point averaging.
- `sorted(districts)` for the select box is not modelled, because it only orders the options. The selected district is a parameter. With no `dist_` features, the select box yields `None` and the column name becomes `dist_None`; the caller passes that string.
- Floating-point rounding is not modelled. Precipitation and probabilities are the exact decimals entered or returned. A value whose double rounds across 0.2 or 0.30 can compare differently in the program.
- Column dtypes are not modelled. pandas keeps int and float columns apart; the model stores every value as a `real`.
- `Decision.Decide`: on the last failure (no probability for the final state, app.py:91), the label and advice have already been drawn. The model returns the failure without that partial output.
- `Frames.Lookup` reads the first column with a name. pandas returns every column with a duplicated name. Lookup is only used to state properties.
