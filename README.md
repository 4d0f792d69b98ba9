# User directory: nickname search and record insert

A model of the two pieces of logic in the Slim user-directory app
(`public/index.php`):

- **GET /users** reads the query parameter `term`. When neither the term nor
  the decoded user collection is PHP-empty, it keeps the users whose nickname
  contains the term, ignoring ASCII case (`array_filter` with
  `strpos(strtolower(...), strtolower(...)) !== false`). It then passes
  `users` (the collection, or `[]` when the file decoded to null), `names`
  (the selection, or `[]`) and `term` to the view.
- **POST /users** draws an id with `mt_rand(1, 100)` and assigns
  `$users[$id] = $userData`. A free id is added. A taken id is silently
  overwritten.

Files:

- `php.dfy` (module `Php`): the PHP semantics the handlers use.
  - `empty()` on a string or an array, and `??`.
  - ASCII `strtolower`.
  - `strpos`, as a search for the first occurrence.
  - Ordered arrays as sequences of (key, value) entries. `$a[$k] = $v` is
    `Put`: an existing key keeps its position, a new key goes at the end.
- `users.dfy` (module `UserSearch`): the search filter `Filter`, the
  `$names ?? []` step `Names`, and the handler's view parameters `Index`.
- `store.dfy` (module `UserCreate`): the class `UserStore`. It holds the
  request's copy of `$users`. Its `Insert` method draws the id by a
  nondeterministic choice in 1..100 and updates the array in place.

Inputs the model takes as parameters:

- The decoded collection, as `Option<Users>`. `None` is JSON null.
- The query term, as `Option<string>`. `None` means the parameter is absent.
- The submitted record, as a map from field name to string.

## Model

| member | source | states |
|---|---|---|
| Php.OrEmpty | public/index.php:34-35 | `$a ?? []` is `[]` for null and the array itself otherwise |
| Php.LowerChar | public/index.php:29 | an ASCII-lowered character is never an upper-case letter |
| Php.Lower | public/index.php:29 | `strtolower` keeps the length of the string |
| Php.LowerChangesOnlyLetters | public/index.php:29 | lowering leaves every non-letter alone and moves A-Z to a-z (code point minus 32) |
| Php.LowerIdempotent | public/index.php:29 | lowering twice is lowering once |
| Php.LowerKeepsEmptiness | public/index.php:26-29 | a string lowers to "" or "0" exactly when it is "" or "0", so `empty()` sees the term the same before and after lowering |
| Php.FindFrom | public/index.php:29 | the search returns the first occurrence at or after the start, or nothing when there is no occurrence |
| Php.StrposFindsExactlyOccurrences | public/index.php:29 | `strpos(...) !== false` holds exactly when the needle occurs in the haystack |
| Php.StrposIsFirst | public/index.php:29 | any occurrence means strpos finds one, at that position or earlier |
| Php.PrefixIsFound | public/index.php:29 | a match at position 0 is reported as 0 and so counts as a match under `!==` |
| Php.ToMapAt | public/index.php:27-30 | in an array with distinct keys, each entry is what the map view holds for its key |
| Php.ToMapSize | public/index.php:68 | with distinct keys the map view has one key per entry |
| Php.Put | public/index.php:68 | assigning a new key appends the entry; assigning a present key keeps the length |
| Php.PutOverwritesInPlace | public/index.php:68 | assigning a present key replaces that one entry at its own position |
| Php.PutKeys | public/index.php:68 | after an assignment the key order is unchanged, plus the new key at the end if it was absent |
| Php.PutDistinct | public/index.php:68 | assignment keeps the keys pairwise distinct |
| Php.PutMap | public/index.php:68 | after `$a[$k] = $v` the key holds v and every other key keeps its value |
| Php.PutSize | public/index.php:68 | the key count grows by exactly one when the key was absent and stays the same when it was present |
| UserSearch.MatchesIffOccurs | public/index.php:29 | a user matches exactly when its lowered nickname contains the lowered term |
| UserSearch.Filter | public/index.php:27-30 | every kept entry is an entry of the collection whose record matches, and every matching entry is kept |
| UserSearch.FilterIsSubsequence | public/index.php:27-30 | the selection is an order-preserving subsequence of the collection, with keys and records unchanged |
| UserSearch.FilterDistinct | public/index.php:27-30 | the selection again has distinct keys |
| UserSearch.FilterAsMap | public/index.php:27-30 | as a map, the selection is the collection restricted to the ids whose record matches |
| UserSearch.Names | public/index.php:26-35 | `names` is empty when the term or the collection is PHP-empty, and holds only entries of the collection |
| UserSearch.Index | public/index.php:24-37 | the view gets the collection (or `[]` for null), the term unchanged, and a `names` that is an ordered subsequence of the collection holding an entry exactly when the term is not PHP-empty and the entry matches it |
| UserSearch.ZeroTermSelectsNothing | public/index.php:26 | the term "0" selects nothing, for every collection |
| UserSearch.ZeroIsFoundByStrpos | public/index.php:29 | the rule itself would match "0" inside "agent007"; only `empty()` stops it |
| UserSearch.FilterTermCaseInsensitive | public/index.php:29 | two terms equal up to ASCII case give the same selection |
| UserSearch.TermCaseInsensitive | public/index.php:26-35 | two terms equal up to ASCII case give the same `names`, including the PHP-empty cases |
| UserSearch.NicknameCaseInsensitive | public/index.php:29 | collections with the same ids whose nicknames differ only in ASCII case select the same ids |
| UserSearch.SearchExample | public/index.php:24-37 | `{1: Alice, 2: bob}` searched for "ALI" gives `{1: Alice}` |
| UserCreate.UserStore.constructor | public/index.php:65-68 | the store starts as the decoded collection, or as an empty array when it decoded to null |
| UserCreate.UserStore.Insert | public/index.php:66-68 | the id is in 1..100; the id maps to the submitted record; every other id keeps its record; the array is `Put` of the old one (overwrite in place or append); the size grows by one exactly when the id was absent |

## Left out

- The Slim application, container, renderer, error middleware, `render` and
  `withRedirect`: framework glue and calls into code that is not part of this
  model.
- Reading and writing `files/users.json`, `json_decode` and `json_encode`:
  file I/O and a library serialiser. The model starts from the decoded
  collection or null. A write after insert is not modelled.
- `mt_rand`: only its range 1..100 is modelled, as a nondeterministic choice.
  Its distribution is not.
- The show route (`/users/{id}`) and the `/users/new` route: a bare lookup
  and a render with no further logic.
- Locale-dependent `strtolower`: only A-Z to a-z is modelled. This matches
  PHP 8.2 and later. Strings are sequences of characters, not bytes.
- Records are maps from field name to string. Non-string JSON values are not
  modelled, and neither is a `user` body parameter that is missing, so is
  null. A record without `nickname` reads as "", which is what
  `strtolower(null)` gives.
- A term passed as an array (`term[]=...`) is not modelled; the term is a
  string or absent.
- PHP turns string keys made of decimal digits into integer keys. The model
  keeps `IntKey` and `StrKey` apart and does not enforce this normalisation.
- Distinct keys are a property of every PHP array. The model states it as
  `DistinctKeys` and requires it of the decoded collection.
