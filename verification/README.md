# Campaign contact resolvers, modelled in Dafny

This project models the read-side logic of a campaign contact in a contact outreach platform:
the field resolvers that turn a contact row, its question responses and its collaborators'
answers into the values the API returns. Every resolver is a pure function. Database query
results, the static zip-to-timezone table, the per-request loaders (campaigns, zip codes) and
the cached opt-out index are parameters. Each resolver that talks to a collaborator returns
`Traced(value, lookups)`, the answer together with the calls it issued, so that "the loader is
not consulted" and "the lookup is keyed by the main zip" are statements about the result.

Modules, one per component:

- `Wrappers` (`wrappers.dfy`): `Option` (a field that may be missing) and `Result`.
- `Strings` (`strings.dfy`): JavaScript's `split` with one separator character, `join`, and
  `parseInt(s, 10)`, with the round trips that pin them down.
- `Contacts` (`contacts.dfy`): the contact record, messages, campaigns, the `is_opted_out`
  value and its `Boolean` cast, JavaScript truthiness, and the lookup trace.
- `Responses` (`responses.dfy`): `questionResponseValues` and the join-row aggregator
  behind `questionResponses`. The aggregator is a left fold of one loop step over the rows,
  producing a map keyed by response id. It is proved equal, record by record, to an
  independent per-response description: the first row's fields, all of the response's
  options in order, and the last matching child.
- `Locations` (`locations.dfy`): the three-tier `location` resolver and the `Location` and
  `Timezone` field resolvers that default missing values.
- `OptOut` (`optout.dfy`): the `optOut` decision tree.
- `History` (`history.dfy`): `messages` with its legacy fallback, and `updatedAt`.

Facts about the code that the model keeps, with their lines:

- `questionResponses` has no `needsMessage` short-circuit and always issues its join query
  (lines 86-114). Only `questionResponseValues` has one (lines 61-63).
- A failed join query is caught by `.catch(logger.error)` (line 114), which leaves `results`
  undefined, so line 118 would throw. The model takes the query's rows as input and does not
  model the failure.
- The matched interaction step depends on the order of a response's rows. It does not only
  when exactly one row of the response carries its answer (`Responses.UniqueMatchDecides`).
  With duplicate answer values the last such row wins (`Responses.DuplicateAnswerLastWins`).
  When no row matches, the first row's child wins, so the result depends on which row comes
  first then too.
- The aggregated `created_at` is the child step's `created_at` (line 146), not the
  response's.
- An unparsable stored offset gives `NaN` (`None` here), and no table lookup is made
  (lines 160-167).
- An `opt_out_cell` echo is `{cell}` without the `"optout"` id (lines 213-216).

## Model

| member | source | states |
|---|---|---|
| `Responses.QuestionResponseValues` | src/server/api/campaign-contact.js:60-85 | For `needsMessage`: no rows and no query. Otherwise: one query, one output per row in order, each row's own columns kept unchanged, and `question = {id: istep_id, question: istep_question}` added |
| `Responses.QuestionResponses` | src/server/api/campaign-contact.js:86-157 | The join query is issued once for every contact, whatever its message status. The result has one record per distinct response id, and each record is the one built from that response's own rows |
| `Responses.Step` | src/server/api/campaign-contact.js:119-155 | One loop iteration adds the row's response id to the keys and leaves every other response's record unchanged |
| `Responses.AggregateKeys` | src/server/api/campaign-contact.js:116-157 | The fold has exactly one record per distinct response id in the rows |
| `Responses.AggregateIsPerResponse` | src/server/api/campaign-contact.js:118-155 | Each record equals the one built from that response's own rows: first-row fields, all child options in input order, and the last matching child (else the first row's child) as the matched step |
| `Responses.AnswerOptionsFollowRows` | src/server/api/campaign-contact.js:126-143 | A record's `answer_options` are the `(child.answer_option, child.id)` pairs of its response's rows in input order, one per row |
| `Responses.MatchedStepIsLastMatch` | src/server/api/campaign-contact.js:133-139 | The matched `interaction_step_id` is the child id of the last row whose answer option equals the response value. If no row matches, it is the child id of the response's first row |
| `Responses.UniqueMatchDecides` | src/server/api/campaign-contact.js:133-135 | When exactly one row of a response matches its value, that row's child is the matched step, wherever the row sits |
| `Responses.DuplicateAnswerLastWins` | src/server/api/campaign-contact.js:133-135 | Two matching rows of one response: the later one wins, so swapping them changes the matched step |
| `Responses.FirstRowFixesFields` | src/server/api/campaign-contact.js:137-154 | `value`, `contact_response_value`, `campaign_id`, `question`, `scriptOptions` and `created_at` come from the response's first row. `answer_option` is `""`, `id` is the response id, and `parent_interaction_id` is absent |
| `Responses.LaterRowChangesOnlyOptionsAndStep` | src/server/api/campaign-contact.js:126-135 | A later row of a seen response appends one answer option. It replaces the matched step only when its child carries the answer. Every other field and every other record stays the same |
| `Strings.Split` | src/server/api/campaign-contact.js:163 | `split` gives at least one piece, no piece contains the separator, and joining the pieces gives back the input |
| `Strings.SplitJoin` | src/server/api/campaign-contact.js:163 | `split` inverts `join` on separator-free pieces |
| `Strings.FirstPiece` | src/server/api/campaign-contact.js:175 | `split(sep)[0]` is the separator-free prefix that is the whole string or is followed by the separator |
| `Strings.ParseIntRender` | src/server/api/campaign-contact.js:165 | `parseInt` reads back every rendered integer, ignoring any non-digit text after it |
| `Strings.ParseIntNaN` | src/server/api/campaign-contact.js:165 | `parseInt` is `NaN` exactly when no digit follows the optional sign |
| `Locations.MainZip` | src/server/api/campaign-contact.js:175 | The main zip is the `-`-free prefix of the zip that ends at its first `-` or at its end |
| `Locations.StoredLocation` | src/server/api/campaign-contact.js:160-173 | Offset is `parseInt` of the first `_` piece. DST holds iff the second piece is `"1"`. City is attached iff it is truthy. State is attached iff city and state are truthy |
| `Locations.ResolveLocation` | src/server/api/campaign-contact.js:159-184 | A truthy descriptor answers with no lookup. Otherwise the table is asked with the main zip. On a hit the answer is its offset and `dst == 1`. The loader is asked, with the same key, iff the table misses, and its answer is returned |
| `Locations.StoredDescriptorWins` | src/server/api/campaign-contact.js:160-174 | A descriptor `"<n>_<flag>"` yields offset `n` and DST iff the flag's first piece is `"1"`. Neither the table nor the loader is consulted |
| `Locations.ZipExtensionStripped` | src/server/api/campaign-contact.js:175-183 | Without a descriptor, every lookup is keyed by the zip text before its `-` extension |
| `Locations.DescriptorExample` | src/server/api/campaign-contact.js:163-167 | `"-5_1"` gives offset -5 with DST and no lookups |
| `Locations.ZipExample` | src/server/api/campaign-contact.js:175-176 | `"10001-1234"` is looked up as `"10001"` |
| `Locations.TimezoneOf` | src/server/api/campaign-contact.js:9 | `timezone` is the location itself, or `{}` with no offset and no DST |
| `Locations.CityOf` | src/server/api/campaign-contact.js:10 | `city` is `""` exactly when the city is missing or empty, else the city |
| `Locations.StateOf` | src/server/api/campaign-contact.js:11 | `state` is `""` exactly when the state is missing or empty, else the state |
| `Locations.OffsetOf` | src/server/api/campaign-contact.js:14 | `offset` is null exactly when the offset is missing, `NaN` or zero |
| `Locations.HasDstOf` | src/server/api/campaign-contact.js:15 | `hasDST` is never false: it is true iff DST holds, else null |
| `Locations.UtcReadsAsNull` | src/server/api/campaign-contact.js:14-15 | A contact stored as `"0_0"` reports null for both offset and `hasDST` |
| `OptOut.Organization` | src/server/api/campaign-contact.js:222-228 | The contact's organization when it is non-zero, else its campaign's. Unknown when the campaign cannot be loaded |
| `OptOut.ResolveOptOut` | src/server/api/campaign-contact.js:211-245 | An `opt_out_cell` is echoed as `{cell}` with no lookup. Otherwise a defined flag is cast to a boolean. Otherwise the index is asked about `(cell, organization)`, and the campaign is loaded only when the contact has no organization. An opted-out contact gives `{id: "optout", cell}`; otherwise the result is null |
| `OptOut.OptOutRecordShape` | src/server/api/campaign-contact.js:213-243 | A returned record holds the echoed opt-out cell, or else the contact's cell under the id `"optout"` |
| `OptOut.EchoIgnoresEverythingElse` | src/server/api/campaign-contact.js:213-216 | With an `opt_out_cell`, the answer does not depend on the flag or the organization |
| `OptOut.IndexQueriedOnlyWhenUndecided` | src/server/api/campaign-contact.js:218-234 | The opt-out index is queried iff there is no `opt_out_cell`, the flag is undefined, and the organization is known |
| `History.ResolveMessages` | src/server/api/campaign-contact.js:185-210 | Attached messages are returned unchanged with no query. The legacy `(assignment_id, cell)` query runs iff the contact-id query is empty and the status is not `needsMessage`, and its answer is returned even when empty |
| `History.FreshContactHasNoHistory` | src/server/api/campaign-contact.js:195-207 | A `needsMessage` contact with no messages gets `[]` and no legacy query |
| `History.UpdatedAt` | src/server/api/campaign-contact.js:32-48 | The stored update time if set and not the zero placeholder. Otherwise the last attached message's creation time. Otherwise the contact's creation time |
| `History.UpdatedAtFollowsNewestMessage` | src/server/api/campaign-contact.js:39-42 | Without a usable stored time, the newest attached message decides |
| `History.UpdatedAtIsOwnTimestamp` | src/server/api/campaign-contact.js:32-48 | The answer is always one of the contact's own timestamps |

## Left out

- `contactTags` (lines 246-268): an access-control call followed by a tag query. Nothing is stateable beyond "check, then fetch".
- The `messageStatus` and `campaign` field resolvers (lines 49-56) and the `mapFieldsToModel` fields: these are plain pass-throughs to the contact row or the campaign loader.
- `migrations/20190625124200_add_interaction_step_script_options.js`: schema changes and an SQL backfill that the database runs. Its down step reads `script_options[0]`, but PostgreSQL arrays start at 1, so it does not restore the first element. `scriptOptions` is copied through unchanged and nothing is assumed about it.
- Query failures: the `.catch(logger.error)` path (line 114) would leave `results` undefined. All queries, loaders and the opt-out index are inputs, so their failures, async scheduling, loader batching and logging are not modelled.
- Row shape: the aggregator reads each join column under its qualified name (`qres.id` and so on). The model assumes the driver returns rows that way. `Object.values` ordering is not modelled; the output is a map keyed by response id.
- `Strings.ParseInt`: the leading-whitespace skipping of `parseInt` and its floating-point rounding of very long digit runs are not modelled.
- `Locations.ResolveLocation`: a missing `zip` would make `split` throw. The model takes the zip as a string. The zip-code loader's row is reduced to offset, DST flag, city and state.
- `OptOut.ResolveOptOut`: an `opt_out_cell` property that is present but holds `null` or `undefined` is not modelled. A present property always carries a cell string here. A numeric `is_opted_out` is an integer; `NaN` is not modelled.
- `History.ResolveMessages`: a `messages` property holding a non-array is not modelled. Here `messages` is either absent or a list. For such a value, `messages` would return it while `updatedAt` would fall back to `created_at`.
- Strings are sequences of characters. JavaScript's UTF-16 code units and any normalisation are not modelled. Answer values are never null here; `===` on them is string equality.
