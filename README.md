# rust_tools core, modelled in Dafny

This models the three pieces of logic in the `rust_tools` command-line toolbox that are more than wrappers around other crates.

- **JSON mock server** (`src/json_server.rs`). The server keeps a map from collection name to JSON value and exposes eight routes.
  - Whole collections: GET, POST, PUT and PATCH on `/name`.
  - One item of an array collection: GET, PUT, PATCH and DELETE on `/name/id`.
  - Items are matched by their `id` field. A numeric id and a textual id match when the text is the number's decimal form.
  - A POST without an id gets the largest id plus one.
  - A PUT or PATCH by id keeps the stored id, whatever id the body carries.
- **grep** (`src/grep.rs` and its near copy `src/subcommands/grep.rs`). It keeps the lines of a text that contain a query, either as written or with case ignored.
- **Textbook RSA** (`src/subcommands/rsa.rs`). It covers the modular inverse by the extended Euclidean algorithm, key generation from two primes and a public exponent, and encryption and decryption as modular exponentiation. It also covers the worked instance p = 61, q = 53, e = 17.

Files and modules:

| file | module | contents |
|---|---|---|
| wrappers.dfy | Wrappers | `Option` |
| decimal.dfy | Decimal | `u64::to_string` and `u64::from_str` on decimal text |
| json_value.dfy | JsonValue | the `Json` datatype, reading and writing a field, `Map::extend` |
| json_ids.dfy | JsonIds | `get_value_id`, `is_value_equal_str`, `is_value_equal_value` |
| json_handlers.dfy | JsonHandlers | the guards and the effect of each route on the store, as functions |
| json_server.dfy | JsonServer | the `Store` class; its methods perform the routes in place |
| json_rules.dfy | JsonRules | the rules the routes obey, as lemmas |
| json_seed.dfy | JsonSeed | the routes run against a concrete two-post store |
| grep_lines.dfy | GrepLines | `str::lines`, `str::contains`, ASCII lower-casing, and the specification of a search |
| grep.dfy | Grep | `src/grep.rs`: the search loops and its two unit tests |
| subcommands_grep.dfy | SubcommandsGrep | `src/subcommands/grep.rs`: the same |
| grep_samples.dfy | GrepSamples | the unit tests' sample texts, worked out |
| number_theory.dfy | NumberTheory | gcd, powers, square-and-multiply |
| rsa.dfy | Rsa | `mod_inverse`, `generate_key_pair`, `encrypt`, `decrypt`, the worked instance |

How the source's behaviour is represented:

- **Panics.** A panic in a handler is the `Panic` response. These are:
  - `max().unwrap()` on an empty array;
  - `max_id + 1` overflowing a u64 (integer overflow panics in a debug build);
  - `value["id"] = ..` on a body that is neither null nor an object;
  - `as_object().unwrap()` on a non-object.

  A panic changes nothing in the map, but it poisons the mutex. From then on, every handler's `lock().unwrap()` panics, and the `poisoned` field of `Store` records this.
- **The backing file.** The server reads the file it was started on, but `inset_and_write` always writes `db.json` in the working directory. The ghost field `flushed` is what `db.json` holds: its contents at startup, passed to the constructor, and after each write the map as written. `Store.Valid()` says `db.json` agrees with the map. It holds from the start only when the startup file's contents are what `db.json` holds, and it holds after every 200 answer of a writing route (POST, PUT, PATCH, DELETE). GET never writes, so its 200 leaves `Valid()` as it was. A route that does not write leaves `db.json` as it was.
- **RSA failures.** A panic in the RSA code, such as a division by zero in the Euclidean loop or a `BigUint` underflow, is `None`.

## Behaviour of note

- PUT and PATCH on `/name` when the collection is an array return 404 with `{}`, not a 409 conflict. This is what `check_db_value_is_array(.., true)` does (src/json_server.rs:95-107, 223, 279), and the model follows the code.
- A POST without an id to an empty array does not start at id 1. `max().unwrap()` on an empty iterator panics (src/json_server.rs:181-185), and the model's answer is `Panic`.
- Distinct ids are not an invariant of the store. The file read at startup may hold items with the same id, and a POST or PUT of an array body to `/name` whose value is not an array stores that array as it is (src/json_server.rs:172-174, 224). `JsonRules` proves only that POST to an array and the by-id routes keep distinct ids distinct. GET, PUT, PATCH and DELETE by id still behave as stated when ids repeat: GET returns the first match, and PUT, PATCH and DELETE drop every match.

## Model

| member | source | states |
|---|---|---|
| Decimal.DecimalText | src/json_server.rs:50 | `u64::to_string` is the shortest decimal text: non-empty, all digits, no leading zero, denoting n |
| Decimal.ParseDecimalText | src/json_server.rs:33-34 | `parse::<u64>` of the decimal text of any u64 gives the number back |
| Decimal.DecimalTextInjective | src/json_server.rs:50 | two numbers have the same decimal text exactly when they are equal |
| Decimal.ParseRejectsOverflow | src/json_server.rs:34 | the text of a number of 2^64 or more does not parse, so `unwrap_or(0)` takes over |
| Decimal.ParseExamples | src/json_server.rs:34 | `from_str` accepts "+05" as 5 and rejects "-5", "" and "+" |
| Decimal.ParseU64 | src/json_server.rs:34 | `parse::<u64>`: a result is below 2^64; digits, or '+' then digits, give their value when it is below 2^64 and fail when it is not; the empty text, a lone '+', a bad first character or any later non-digit is rejected |
| JsonValue.Field | src/json_server.rs:32 | `value["id"]` is the object's field, or Null for a missing key or a non-object |
| JsonValue.SetField | src/json_server.rs:186 | `value[key] = x` succeeds exactly on Null or an object; the result is an object whose keys are the old keys plus key, with key set to x and every other field, null-valued ones included, as before |
| JsonValue.Extend | src/json_server.rs:281-284 | `Map::extend`: the keys of both maps; source values win, target keeps its other keys |
| JsonIds.GetValueId | src/json_server.rs:31-41 | the id is always a u64 |
| JsonIds.GetValueIdViaText | src/json_server.rs:31-41 | a u64 id is itself, a string id is its parse or 0, any other id is 0 |
| JsonIds.GetValueIdOfText | src/json_server.rs:31-41 | an item whose id reads as the decimal text of n, as number or as string, has GetValueId n |
| JsonIds.IsValueEqualStr | src/json_server.rs:44-54 | true exactly when the item's id is the string id or a u64 whose decimal text is id |
| JsonIds.IsValueEqualValue | src/json_server.rs:58-78 | true exactly when both items have a string or u64 id and the two ids have the same text |
| JsonIds.IsValueEqualValueSymmetric | src/json_server.rs:58-78 | the comparison does not depend on argument order |
| JsonIds.NoIdEqualsNothing | src/json_server.rs:44-78 | an item without a string or u64 id matches no path segment and no other item, not even another item without an id |
| JsonIds.SameSegmentSameId | src/json_server.rs:44-78 | two items matching the same path segment have equal ids |
| JsonIds.NumericAndTextualIdsAgree | src/json_server.rs:44-78 | `{"id":5}` and `{"id":"5"}` both match path `5` and match each other |
| JsonHandlers.CheckDbValueIsEmpty | src/json_server.rs:81-92 | passes exactly a stored value, otherwise 404 with `{}` |
| JsonHandlers.CheckDbValueIsArray | src/json_server.rs:95-107 | passes exactly a stored value whose being an array differs from is_array, otherwise 404 with `{}` |
| JsonHandlers.Lookup | src/json_server.rs:123 | `db.get(name)`: a value exactly when name is present, and it is the stored one |
| JsonHandlers.FindId | src/json_server.rs:141 | `iter().find`: the first position whose item matches id, or none when no item matches |
| JsonHandlers.HasSameId | src/json_server.rs:194-196 | an item with the same id exists exactly when some item and the body both have a string or u64 id of the same text; so a body without such an id is never a duplicate |
| JsonHandlers.Conflict | src/json_server.rs:201-204 | a 500 whose body is an object with exactly the keys `error` and `data`, `data` being the rejected body |
| JsonHandlers.RemoveId | src/json_server.rs:348-352 | the filter is no longer than the collection, and every item it keeps is an item of the collection that does not match id |
| JsonHandlers.MaxId | src/json_server.rs:181-185 | the maximum of `get_value_id` over a non-empty collection: a u64, no smaller than any item's id, and attained by some item |
| JsonHandlers.Insert | src/json_server.rs:110-111 | writing name adds name to the keys, sets its value and leaves every other entry alone |
| JsonHandlers.GetName | src/json_server.rs:121-128 | 200 with the stored value exactly when name is present, otherwise 404 |
| JsonHandlers.GetNameId | src/json_server.rs:135-150 | 200 exactly when name holds an array with an item matching id; the answer is the first such item, as `iter().find` gives; otherwise 404 |
| JsonHandlers.PostName | src/json_server.rs:161-213 | a missing name is a 404 and changes nothing; for an array, a body that is neither null nor an object panics, and so does an id-less body when the maximum id is 2^64 - 1; only the entry for name may change, no entry is added or removed, and a refused or panicking call changes nothing |
| JsonHandlers.PutName | src/json_server.rs:219-226 | the same confinement as PostName |
| JsonHandlers.PutNameId | src/json_server.rs:233-265 | a missing name, a non-array or no matching item is a 404 that changes nothing; with a match, 200 exactly when the body is null or an object, and otherwise a panic that changes nothing; only the entry for name may change |
| JsonHandlers.PatchName | src/json_server.rs:271-287 | a missing name or an array is a 404; a stored non-object or a non-object body panics; an object with an object body answers 200; nothing else changes and a failed call changes nothing |
| JsonHandlers.PatchNameId | src/json_server.rs:294-331 | a missing name, a non-array or no matching item is a 404 that changes nothing; with a match, 200 exactly when the body is null or an object, and otherwise a panic that changes nothing; only the entry for name may change |
| JsonHandlers.DeleteNameId | src/json_server.rs:338-362 | a missing name, a non-array or no matching item is a 404 that changes nothing; with a match, 200 with `{}`; only the entry for name may change |
| JsonServer.Store.constructor | src/json_server.rs:375-380 | the store starts from the map parsed from the startup file, unpoisoned; `flushed` is what `db.json` holds at startup; `Valid()` exactly when the two agree |
| JsonServer.Store.InsetAndWrite | src/json_server.rs:110-116 | the map gets name set to the value, nothing else changes, and the file snapshot becomes the whole map |
| JsonServer.Store.GetName | src/json_server.rs:121-128 | changes nothing; answers `JsonHandlers.GetName`, or panics once the lock is poisoned |
| JsonServer.Store.GetNameId | src/json_server.rs:135-150 | changes nothing; answers `JsonHandlers.GetNameId`, or panics once the lock is poisoned |
| JsonServer.Store.PostName | src/json_server.rs:161-213 | the answer and new map are those of `JsonHandlers.PostName`; a panic poisons the lock; `db.json` becomes the new map exactly on a 200 and is otherwise unchanged |
| JsonServer.Store.PutName | src/json_server.rs:219-226 | the answer and new map are those of `JsonHandlers.PutName`; `db.json` becomes the new map exactly on a 200 and is otherwise unchanged |
| JsonServer.Store.PutNameId | src/json_server.rs:233-265 | the answer and new map are those of `JsonHandlers.PutNameId`; a panic poisons the lock; `db.json` becomes the new map exactly on a 200 and is otherwise unchanged |
| JsonServer.Store.PatchName | src/json_server.rs:271-287 | the answer and new map are those of `JsonHandlers.PatchName`; a panic poisons the lock; `db.json` becomes the new map exactly on a 200 and is otherwise unchanged |
| JsonServer.Store.PatchNameId | src/json_server.rs:294-331 | the answer and new map are those of `JsonHandlers.PatchNameId`; a panic poisons the lock; `db.json` becomes the new map exactly on a 200 and is otherwise unchanged |
| JsonServer.Store.DeleteNameId | src/json_server.rs:338-362 | the answer and new map are those of `JsonHandlers.DeleteNameId`; `db.json` becomes the new map exactly on a 200 and is otherwise unchanged |
| JsonRules.RemoveIdKeepsNonMatching | src/json_server.rs:348-352 | the filter keeps exactly the items that do not match id |
| JsonRules.RemoveIdAppend | src/json_server.rs:348-352 | the filter keeps order: filtering a concatenation filters each part |
| JsonRules.RemoveIdNoMatch | src/json_server.rs:348-352 | when nothing matches, the filter returns the collection unchanged |
| JsonRules.RemoveIdKeepsDistinct | src/json_server.rs:348-352 | filtering keeps ids pairwise distinct |
| JsonRules.AppendKeepsDistinct | src/json_server.rs:208 | appending an item whose id no item shares keeps ids distinct |
| JsonRules.AutoIdIsFresh | src/json_server.rs:181-186 | the id max + 1 matches no existing item |
| JsonRules.PostAssignsNextId | src/json_server.rs:179-189 | a POST without an id to a non-empty array gives the body id max + 1, appends it and returns it; the answer has exactly the body's keys plus `id`, every other field unchanged, and an id no item shares |
| JsonRules.PostOnEmptyArrayPanics | src/json_server.rs:181-185 | a POST without an id to an empty array panics and changes nothing |
| JsonRules.PostDuplicateIsRefused | src/json_server.rs:194-205 | a POST whose id an item shares answers 500 with `{"error": .., "data": body}` and changes nothing |
| JsonRules.PostNewIdAppends | src/json_server.rs:206-211 | a POST whose id no item shares appends the body unchanged and returns it |
| JsonRules.PostReplacesNonArray | src/json_server.rs:171-175 | a POST to a non-array replaces it by the body and returns the body |
| JsonRules.PutNameRule | src/json_server.rs:219-226 | PUT /name answers 404 and changes nothing exactly for a missing name or an array, and otherwise replaces the value by the body |
| JsonRules.PatchNameRefusesArrays | src/json_server.rs:276-279 | PATCH /name on a missing name or an array answers 404 and changes nothing |
| JsonRules.PatchNameMerges | src/json_server.rs:280-286 | PATCH /name on an object merges at the top level: posted keys overwrite, the others stay |
| JsonRules.PutNameIdForcesId | src/json_server.rs:246-257 | a successful PUT by id returns the body with the matched item's id and exactly the body's keys plus `id`, drops every item matching id, keeps the others in order and appends the new item |
| JsonRules.PatchNameIdMergesAndForcesId | src/json_server.rs:305-323 | a successful PATCH by id merges the body over the first match at the top level, keeps the stored id, has exactly the stored item's keys plus the body's, drops every matching item and appends the merge |
| JsonRules.MergeOverItem | src/json_server.rs:309-315 | the merged item has the stored id, exactly the stored item's keys plus the posted ones, the posted fields, and the stored item's other fields |
| JsonRules.ByIdWithoutMatchIsNotFound | src/json_server.rs:135-362 | with no matching item, GET, PUT, PATCH and DELETE by id answer 404 and change nothing |
| JsonRules.DeleteDropsAllMatches | src/json_server.rs:344-354 | a successful DELETE answers `{}` and leaves exactly the non-matching items, in order |
| JsonRules.DeleteTwiceIsNotFound | src/json_server.rs:338-362 | a second DELETE of the same id answers 404 and changes nothing |
| JsonRules.PostKeepsIdsDistinct | src/json_server.rs:178-212 | a POST to an array whose ids are distinct leaves them distinct |
| JsonRules.ReplaceKeepsDistinct | src/json_server.rs:250-255 | removing the items matching id and appending one item with that id keeps ids distinct |
| JsonRules.ByIdKeepsIdsDistinct | src/json_server.rs:233-362 | PUT, PATCH and DELETE by id keep an array collection an array with distinct ids |
| JsonSeed.SmallIds | src/json_server.rs:50 | the decimal texts of 1, 2 and 3 |
| JsonSeed.SeedGets | src/json_server.rs:121-150 | on the two-post store, GET /profile, GET /posts/1 and GET /posts/9 |
| JsonSeed.SeedPostWithoutId | src/json_server.rs:179-189 | POST /posts `{"title":"c"}` gets id 3, is appended, and GET /posts shows it |
| JsonSeed.SeedPostDuplicate | src/json_server.rs:194-205 | POST /posts with id 1 answers 500 and the first post stays as it was |
| JsonSeed.SeedPuts | src/json_server.rs:219-226 | PUT /profile replaces it; PUT /posts is a 404 |
| JsonSeed.SeedPatchForcesId | src/json_server.rs:294-331 | PATCH /posts/2 with id 999 keeps id 2 and takes the new title |
| JsonSeed.SeedFindsPost2 | src/json_server.rs:305 | the search for id 2 finds the second post |
| JsonSeed.SeedMergesPost2 | src/json_server.rs:309-315 | forcing the id and merging over the second post |
| JsonSeed.SeedDelete | src/json_server.rs:338-362 | DELETE /posts/1 answers `{}`; afterwards GET and DELETE of /posts/1 are 404s |
| JsonSeed.SeedPostAfterDelete | src/json_server.rs:179-189 | after the delete the maximum id is 2, so a new post gets id 3 |
| JsonSeed.SeedSession | src/json_server.rs:161-362 | on a Store object: a duplicate POST, two DELETEs and a POST, answered 500, `{}`, 404 and id 3 |
| GrepLines.LineEnd | src/grep.rs:33 | the first '\n' at or after i, or the end of the text |
| GrepLines.Lines | src/grep.rs:33 | `str::lines` yields lines without '\n', and none for the empty text |
| GrepLines.LinesCons | src/grep.rs:33 | a text split at its first '\n' gives the first line, without a trailing '\r', then the lines of the rest |
| GrepLines.LinesLast | src/grep.rs:33 | a final line without a line ending is returned whole |
| GrepLines.LinesFinalNewline | src/grep.rs:33 | a final '\n' ends the last line (a '\r' before it dropped) and starts no empty line |
| GrepLines.LineEndAt | src/grep.rs:33 | the first line ends where its '\n' is |
| GrepLines.Lower | src/grep.rs:42-53 | lower-casing keeps the length and lower-cases each character |
| GrepLines.ContainsBounds | src/grep.rs:34 | `str::contains`: a query longer than the line never occurs, a prefix always does, and a query as long as the line occurs exactly when the two are equal |
| GrepLines.EmptyQueryKeepsAll | src/grep.rs:34 | every line contains the empty query, so every line is kept |
| GrepLines.SelectedSound | src/grep.rs:30-53 | every kept line is an input line that the search hits |
| GrepLines.SelectedComplete | src/grep.rs:30-53 | every input line that the search hits is kept |
| GrepLines.SelectedAppend | src/grep.rs:30-53 | searching a concatenation is searching each part, so order is kept |
| GrepLines.SelectedIsSubsequence | src/grep.rs:30-53 | the result is a subsequence of the input lines |
| GrepLines.SubsequenceExtend | src/grep.rs:35 | appending to the input keeps a subsequence a subsequence |
| GrepLines.SubsequenceDropLast | src/grep.rs:35 | dropping the last element keeps a subsequence a subsequence |
| GrepLines.SubsequenceShorter | src/grep.rs:30-40 | a subsequence is no longer than its sequence |
| GrepLines.SelectedLength | src/subcommands/grep.rs:37-61 | a search never returns more lines than the text has |
| GrepLines.SelectedSingle | src/grep.rs:34-35 | one line is kept exactly when the search hits it |
| GrepLines.FirstCharAbsent | src/grep.rs:34 | a query whose first character is absent does not occur |
| GrepLines.SkipPrefix | src/grep.rs:34 | an occurrence cannot start in a prefix lacking the query's first character |
| GrepLines.ContainsSuffix | src/grep.rs:34 | a query that starts a suffix occurs in the text |
| GrepLines.StepOver | src/grep.rs:34 | a mismatch at some offset rules out an occurrence at index 0 |
| Grep.GrepArgs.Search | src/grep.rs:30-40 | the result is the input lines that contain the query, in order |
| Grep.GrepArgs.SearchCaseInsensitive | src/grep.rs:42-53 | the result is the original input lines whose lower-cased form contains the lower-cased query, in order |
| Grep.GrepArgs.Run | src/grep.rs:14-28 | the printed lines are the case-sensitive or case-insensitive search, as ignore_case says |
| Grep.CaseSensitive | src/grep.rs:60-75 | "duct" on the sample keeps only "safe, fast, productive." |
| Grep.CaseInsensitive | src/grep.rs:77-95 | "rUsT" ignoring case keeps "Rust:" and "Trust me." |
| SubcommandsGrep.GrepArgs.Search | src/subcommands/grep.rs:37-47 | the result is the input lines that contain the query, in order |
| SubcommandsGrep.GrepArgs.SearchCaseInsensitive | src/subcommands/grep.rs:50-61 | the result is the original input lines whose lower-cased form contains the lower-cased query, in order |
| SubcommandsGrep.GrepArgs.Run | src/subcommands/grep.rs:18-32 | the printed lines are the case-sensitive or case-insensitive search, as ignore_case says |
| SubcommandsGrep.CaseSensitive | src/subcommands/grep.rs:68-84 | "duct" on the sample keeps only "safe, fast, productive." |
| SubcommandsGrep.CaseInsensitive | src/subcommands/grep.rs:86-105 | "rUsT" ignoring case keeps "Rust:" and "Trust me." |
| GrepSamples.LinesOfFour | src/grep.rs:63-67 | a four-line text splits into its four lines |
| GrepSamples.SelectedFour | src/grep.rs:33-37 | searching four lines is searching each of them |
| GrepSamples.DuctTapeLines | src/grep.rs:63-67 | the lines of the "Duct tape." sample |
| GrepSamples.TrustMeLines | src/grep.rs:80-84 | the lines of the "Trust me." sample |
| GrepSamples.ProductiveHasDuct | src/grep.rs:62-67 | "safe, fast, productive." contains "duct" |
| GrepSamples.DuctSearch | src/grep.rs:60-75 | "duct" keeps only "safe, fast, productive."; "Duct tape." is not kept |
| GrepSamples.LowerSamples | src/grep.rs:42-53 | the lower-cased query and sample lines |
| GrepSamples.ProductiveLacksRust | src/grep.rs:47 | "safe, fast, productive." does not contain "rust" |
| GrepSamples.ThreeLacksRust | src/grep.rs:47 | "pick three." does not contain "rust" |
| GrepSamples.TrustHasRust | src/grep.rs:47 | "rust:" and "trust me." contain "rust" |
| GrepSamples.RustSearch | src/grep.rs:77-95 | "rUsT" ignoring case keeps "Rust:" and "Trust me." |
| NumberTheory.ModPow | src/subcommands/rsa.rs:104 | `modpow` is below the modulus |
| NumberTheory.ModPowIsPow | src/subcommands/rsa.rs:101-112 | square-and-multiply computes b^e mod n |
| NumberTheory.PowAdd | src/subcommands/rsa.rs:104 | b^(e1+e2) = b^e1 · b^e2 |
| Rsa.ModInverse | src/subcommands/rsa.rs:51-82 | 1 when n is 1 or a is 0; for gcd(a, n) = 1 and n > 1, the x below n with a·x ≡ 1 (mod n); a panic exactly when a ≠ 0, n ≠ 1 and gcd(a, n) ≠ 1, the division by zero in the loop; 1 also when n is 0 and nothing panics |
| Rsa.EuclidStep | src/subcommands/rsa.rs:66-74 | one round of the loop keeps the Bézout relations, the opposite signs of the coefficients and their bound |
| Rsa.InverseMod | src/subcommands/rsa.rs:77-81 | the single `+ n` correction gives the inverse |
| Rsa.Phi | src/subcommands/rsa.rs:93 | (p-1)(q-1) equals p·q - p - q + 1, and for p, q > 1 it is positive and below p·q |
| Rsa.GenerateKeyPair | src/subcommands/rsa.rs:85-98 | public key (e, p·q), private key on the same modulus with d the inverse of e mod (p-1)(q-1) when that modulus exceeds 1 and e is coprime to it, and d = 1 in every other case that does not panic; a panic exactly for p or q zero or a failing inverse |
| Rsa.Encrypt | src/subcommands/rsa.rs:101-105 | message^e mod n, below n |
| Rsa.Decrypt | src/subcommands/rsa.rs:108-112 | cipher^d mod n, below n |
| Rsa.Example | src/subcommands/rsa.rs:22-45 | p = 61, q = 53, e = 17 give keys (17, 3233) and (2753, 3233); 123 encrypts to 855 and decrypts back to 123 |
| Rsa.ExampleCoprime | src/subcommands/rsa.rs:28 | 17 and 3120 are coprime |
| Rsa.InverseOf17 | src/subcommands/rsa.rs:31 | 2753 is the only inverse of 17 mod 3120 below 3120 |
| Rsa.ExampleEncrypt | src/subcommands/rsa.rs:38 | 123^17 mod 3233 = 855 |
| Rsa.ExampleDecrypt | src/subcommands/rsa.rs:39 | 855^2753 mod 3233 = 123 |

## Left out

- Rocket routing, `status::Custom`, `State`, the tokio runtime and the `Mutex` itself: each handler is one call on the `Store` object. Only the lock's poisoning is kept. Concurrent requests are not modelled.
- File I/O and serialisation. These cover the JSON file read and parsed at startup (`JsonServerArgs::run`), `to_string_pretty` and `fs::write` in `inset_and_write`, and the panic from `expect` when the write fails. The flush is the ghost snapshot `flushed`.
- JsonServer.Store.constructor: the contents of `db.json` at startup are a ghost parameter. The read of the startup file and the parse are not modelled, and neither is whether that file is `db.json` itself.
- The file read in grep's `run` and its error result: `Run` takes the file's contents as a parameter. Printing the lines is their return value.
- `print_debug` debug output.
- JsonValue.Json: negative and floating-point numbers are `OtherNum`, text only. `as_u64` rejects them, and the handlers never look inside them.
- JsonValue.Json: the key order of a `serde_json` map is not modelled. Objects are maps.
- JsonHandlers.MaxId: `max_id + 1` overflowing u64 is the debug-build panic. The wrap-around of a release build is not modelled.
- GrepLines.Lower: ASCII lower-casing only. Unicode `to_lowercase` can change a string's length, which is not modelled.
- GrepLines.Lines: splits on '\n' and strips a '\r' that directly precedes a '\n'. Other Unicode line separators are not line ends for `str::lines` either.
- Rsa.Encrypt: requires a non-zero modulus. `BigUint::modpow` panics on a zero modulus, and that panic is not modelled as an outcome.
- Rsa.Decrypt: requires a non-zero modulus, for the same reason.
- Rsa.GenerateKeyPair: does not require p and q to be prime. Correct decryption for every message is not proved, only for the worked instance.
- The RSA `#[cfg(test)]` test, which uses the `rsa` and `rand` crates, and the printing in `RsaArgs::run`.
- src/subcommands/aes.rs, base64.rs, sha.rs and md5.rs wrap other crates. src/find.rs, src/static_server.rs, src/main.rs, src/cli.rs, src/cli/mod.rs, src/image_preview.rs and src/tools.rs do file walking, networking or command-line dispatch. None of them is part of this model.
