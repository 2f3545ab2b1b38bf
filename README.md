# Collision, map loading, hash table, strings and localization of a Teeworlds mod server

This project models, in Dafny, the core of a Teeworlds mod server in five parts:

- **The tile-grid collision world** (`collision.dfy`, module `Collision`). `CCollision::Init` reclassifies the game layer's tile codes in place. `GetTile` and `IsTileSolid` read the clamped cell. `GetZoneHandle` and `GetZoneValueAt` build zone lists and combine zone layers. `MovePoint`, `TestBox` and `MoveBox` resolve movement over an abstract blocked-point test.
- **The map loader** (`map.dfy`, module `EngineMap`). It models `CMap::Load`: the early returns, the 32-bit overflow guard on tilemap sizes, and the expansion of skip-run compressed tile layers into a tile array.
- **The `tl` hash table** (`hashtable.dfy`, module `HashTable`). This is the bucketed, string-keyed `hashtable<T, TABLESIZE>` with its djb2 hash, `set`, `get`, `unset`, `clear`, the positional accessors and the bucket iterator.
- **The string buffers** (`system_string.dfy`, module `SystemString`). It covers the fixed-size and growable string cores, the `string<>` wrapper, and the `str_*` helpers they use, modelled with their usual C semantics.
- **Localization** (`localization.dfy`, module `Localization`, and `localization_format.dfy`, module `LocalizationFormat`):
  - `CEntry` and the plural and direction enums;
  - `CLanguage`: its table of translations, `Localize`, `Localize_P`, and the storing of one record of a language file;
  - the country-to-language tables;
  - the parent-language fallback of `LocalizeWithDepth(_P)`;
  - `PreUpdate`, which switches the main language and notifies listeners;
  - `Format_V`: its `{type:name}` template scanner, the placeholder substitution (the `sec:` split included), and the right-to-left shaping step.

`cbase.dfy` (module `CBase`) holds the C integer semantics the other modules share: 32-bit wrap-around, division truncating toward zero, and `clamp`.

C strings are modelled by their characters before the terminator. Integers are unbounded, and wrap-around is written out where the source relies on it (`Wrap32`). The tile and collision-flag constants are carried symbolically (`Collision.Codes`), because their headers are not part of this model.

Imperative code stays imperative:
- Hash-table buckets are an `array` of sequences that the methods reassign.
- `Init` rewrites its tile array in place.
- The string cores, `CCollision`, `CLanguage` and `CLocalization` are classes whose methods update their fields.
- The loops of the source (hash search, tile expansion, `MoveBox`, the `Format_V` scanner, buffer doubling, listener notification) are `while`/`for` loops. Each is proved against a specification function, and the lemmas about that function state what the source promises.

Three behaviours of the code worth knowing:
- `Init` has no failure path. The code does not check for a missing game layer.
- A placeholder's name selects an argument whose name it is a *prefix* of. `str_comp_num` stops at the placeholder name's length.
- The character right after a `{` always belongs to the placeholder type. The scanner steps over it unexamined.

## Model

| member | source | states |
|---|---|---|
| CBase.Wrap32 | src/engine/shared/map.cpp:39-40 | storing an arithmetic result into a C `int` keeps it modulo 2^32 in the int32 range, and leaves values that fit unchanged |
| CBase.TruncDivRemainder | src/engine/shared/map.cpp:42 | C division leaves a remainder smaller than the divisor with the dividend's sign, which is what makes a divide-back check meaningful |
| CBase.TruncDivNonNegative | src/game/collision.cpp:222-223 | on non-negative operands C division is ordinary division |
| CBase.Clamp | src/game/collision.cpp:222-223 | the result lies in [lo, hi] when that range is non-empty, and a value already inside is kept |
| SystemString.StrCopy | src/teeuniverses/system/string.h:48 | `str_copy` yields a prefix of the source shorter than the size, and the whole source when it fits |
| SystemString.StrAppend | src/teeuniverses/system/string.h:58 | `str_append` keeps the existing text, appends a prefix of the source, stays below the size, and appends all of it when it fits |
| SystemString.StrAppendNum | src/teeuniverses/system/string.h:63 | as `str_append`, appending at most `num` characters (none for negative `num`), and exactly the first `num` when they exist and fit |
| SystemString.StrComp | src/teeuniverses/system/string.h:218 | `str_comp` is zero exactly on equal strings |
| SystemString.StrCompIsLexicographic | src/teeuniverses/system/string.h:216-225 | `str_comp` is negative exactly when the first string is lexicographically smaller (a proper prefix, or smaller at the first difference) |
| SystemString.LexLessTail | src/teeuniverses/system/string.h:216-225 | strings with the same first character are ordered exactly as their tails are |
| SystemString.StrCompAntisymmetric | src/teeuniverses/system/string.h:227-236 | swapping the operands of `str_comp` negates its result |
| SystemString.StrCompNum | src/teeuniverses/system/string.h:262 | `str_comp_num` is zero exactly when the first `n` characters of both strings agree; a negative `n` (a huge `size_t` to `strncmp`) compares the whole strings, as `str_comp` |
| SystemString.Less | src/teeuniverses/system/string.h:216-225 | `operator<` is lexicographic order |
| SystemString.Greater | src/teeuniverses/system/string.h:227-236 | `operator>` is lexicographic order with the operands swapped |
| SystemString.Equals | src/teeuniverses/system/string.h:238-247 | `operator==` holds exactly on equal contents |
| SystemString.NotEquals | src/teeuniverses/system/string.h:249-258 | `operator!=` holds exactly on different contents |
| SystemString.CompNum | src/teeuniverses/system/string.h:260-269 | `comp_num` is 0 when the first `num` characters agree (all of them for a negative `num`) and 1 otherwise |
| SystemString.Grown | src/teeuniverses/system/string.h:142-144 | the doubled capacity reaches the needed size, and when it grows it stays below twice the need |
| SystemString.GrownIsDoubling | src/teeuniverses/system/string.h:142-144 | the grown capacity is the old one times a power of two |
| SystemString.FixedString.constructor | src/teeuniverses/system/string.h:37-40 | a new fixed string is empty |
| SystemString.FixedString.MaxSize | src/teeuniverses/system/string.h:44 | the capacity is the template size and always exceeds the length |
| SystemString.FixedString.Copy | src/teeuniverses/system/string.h:46-49 | `copy` truncates to SIZE-1 characters |
| SystemString.FixedString.Transfert | src/teeuniverses/system/string.h:51-54 | `transfert` of a fixed string copies the other's contents, truncated |
| SystemString.FixedString.AppendAt | src/teeuniverses/system/string.h:56-59 | `append_at` appends within the fixed capacity |
| SystemString.FixedString.AppendAtNum | src/teeuniverses/system/string.h:61-64 | `append_at_num` appends at most `num` characters within the fixed capacity |
| SystemString.FixedString.Length | src/teeuniverses/system/string.h:188 | the length is below the capacity |
| SystemString.FixedString.Empty | src/teeuniverses/system/string.h:190 | `empty()` holds exactly when the length is 0 |
| SystemString.FixedString.Clear | src/teeuniverses/system/string.h:189 | after `clear()` the string is empty |
| SystemString.FixedString.Append | src/teeuniverses/system/string.h:200 | `append` appends at the end, truncated to the capacity |
| SystemString.DynamicString.constructor | src/teeuniverses/system/string.h:81-86 | a new dynamic string has a buffer of INITIALSIZE and is empty |
| SystemString.DynamicString.ResizeBuffer | src/teeuniverses/system/string.h:94-110 | `resize_buffer` sets the capacity and keeps the old contents truncated to Size-1, or starts empty on a NULL buffer |
| SystemString.DynamicString.MaxSize | src/teeuniverses/system/string.h:114 | the capacity is 0 exactly for a NULL buffer and otherwise exceeds the length |
| SystemString.DynamicString.Copy | src/teeuniverses/system/string.h:116-123 | after `copy(p)` the contents are `p`, and the capacity grew to exactly `strlen(p)+1` only when `p` did not fit |
| SystemString.DynamicString.Transfert | src/teeuniverses/system/string.h:125-134 | `transfert` moves buffer, contents and capacity into the target and leaves the source NULL with capacity 0 |
| SystemString.DynamicString.AppendAt | src/teeuniverses/system/string.h:136-152 | the capacity is doubled to the smallest `maxsize*2^k` holding Pos+len+1, `p` is appended, and the result is `min(Pos+len, maxsize-1)` |
| SystemString.DynamicString.AppendAtNum | src/teeuniverses/system/string.h:154-169 | as `append_at` with at most `Num` characters; the result is `min(Pos+Num, maxsize-1)` |
| SystemString.DynamicString.Length | src/teeuniverses/system/string.h:188 | the length is below the capacity |
| SystemString.DynamicString.Empty | src/teeuniverses/system/string.h:190 | `empty()` holds exactly when the length is 0 |
| SystemString.DynamicString.Clear | src/teeuniverses/system/string.h:189 | after `clear()` the string is empty and keeps its capacity |
| SystemString.DynamicString.Append | src/teeuniverses/system/string.h:200 | `append` never truncates: the new contents are the old followed by all of `p` |
| SystemString.DynamicString.AppendNum | src/teeuniverses/system/string.h:208 | `append_num` appends exactly the first `num` characters of `p` |
| HashTable.SignedChar | src/teeuniverses/tl/hashtable.h:38 | a `char` added to the hash is a signed byte congruent to the character modulo 256 |
| HashTable.Djb2 | src/teeuniverses/tl/hashtable.h:34-38 | the djb2 fold stays an unsigned 32-bit value |
| HashTable.Djb2Step | src/teeuniverses/tl/hashtable.h:37-38 | one more character multiplies by 33 and adds it, modulo 2^32 |
| HashTable.Hash | src/teeuniverses/tl/hashtable.h:34-40 | `hash(key)` is a bucket index in [0, TABLESIZE) |
| HashTable.IndexOf | src/teeuniverses/tl/hashtable.h:60-64 | the position of the first entry with the key, -1 exactly when no entry has it |
| HashTable.FindAppend | src/teeuniverses/tl/hashtable.h:66-68 | appending an entry with a new key makes that key map to its data and leaves every other key's lookup alone |
| HashTable.FindRemove | src/teeuniverses/tl/hashtable.h:97-108 | with unique keys, removing entry `i` removes its key and leaves every other key's lookup alone |
| HashTable.FindUpdate | src/teeuniverses/tl/hashtable.h:75-91 | with unique keys, overwriting entry `i`'s data changes that key's lookup alone |
| HashTable.HashTable.constructor | src/teeuniverses/tl/hashtable.h:31 | a new table is well formed with every bucket empty |
| HashTable.HashTable.Clear | src/teeuniverses/tl/hashtable.h:47-51 | `clear` empties every bucket, so no key is found |
| HashTable.HashTable.Search | src/teeuniverses/tl/hashtable.h:115-125 | the search loop finds the first entry of the bucket with the key, or -1 |
| HashTable.HashTable.SetDefault | src/teeuniverses/tl/hashtable.h:57-69 | `set(key)` returns the existing entry and changes nothing when the key is present, otherwise appends one entry to bucket `hash(key)` only; keys stay unique and the key is found afterwards |
| HashTable.HashTable.Set | src/teeuniverses/tl/hashtable.h:75-91 | `set(key, data)` overwrites a present key's data in place or appends the key to its bucket; afterwards the key maps to `data` and every other key is unchanged |
| HashTable.HashTable.Unset | src/teeuniverses/tl/hashtable.h:97-108 | `unset` removes the first matching entry from bucket `hash(key)` only, keeping the others' order; the key is absent afterwards and every other key is unchanged |
| HashTable.HashTable.Get | src/teeuniverses/tl/hashtable.h:143-153 | `get(key)` (both overloads) is null exactly when no entry of bucket `hash(key)` has the key, and otherwise is that entry's data |
| HashTable.HashTable.GetAt | src/teeuniverses/tl/hashtable.h:127-133 | `get(Id, SubId)` is null exactly outside the table, and otherwise is that entry's data |
| HashTable.HashTable.GetKey | src/teeuniverses/tl/hashtable.h:135-141 | `get_key` is null exactly outside the table, and a key it returns hashes to `Id` |
| HashTable.HashTable.SubtableSize | src/teeuniverses/tl/hashtable.h:155-158 | the size of a bucket |
| HashTable.FirstNonEmpty | src/teeuniverses/tl/hashtable.h:172-176 | the first non-empty bucket at or after `i`, every bucket before it empty, or TABLESIZE |
| HashTable.PositionsStep | src/teeuniverses/tl/hashtable.h:180-200 | `operator++` steps from each entry position to the next one in bucket order, and from the last one to the end position |
| HashTable.IterationVisitsEveryEntry | src/teeuniverses/tl/hashtable.h:206-207 | from `begin()`, repeated `operator++` visits every entry exactly once in bucket order and then equals `end()` |
| HashTable.IncrementReadsPastLastBucket | src/teeuniverses/tl/hashtable.h:186-190 | as written, `operator++` asks for the size of bucket TABLESIZE, past the end of `m_Table`, exactly when it moves to the end position |
| HashTable.Iterator.Begin | src/teeuniverses/tl/hashtable.h:170-177 | `begin()` is at the first entry of the first non-empty bucket |
| HashTable.Iterator.End | src/teeuniverses/tl/hashtable.h:207 | `end()` is at (TABLESIZE, 0) |
| HashTable.Iterator.Next | src/teeuniverses/tl/hashtable.h:180-200 | `operator++` moves to the next position in iteration order, without the out-of-bounds read |
| HashTable.Iterator.Data | src/teeuniverses/tl/hashtable.h:201 | `data()` is null exactly at positions outside the table |
| HashTable.Iterator.Key | src/teeuniverses/tl/hashtable.h:202 | `key()` is null exactly at positions outside the table |
| HashTable.Iterator.Equal | src/teeuniverses/tl/hashtable.h:203 | `operator==` holds exactly for the same table and position |
| HashTable.Iterator.NotEqual | src/teeuniverses/tl/hashtable.h:204 | `operator!=` is the negation of `operator==` |
| Collision.Classify | src/game/collision.cpp:198-216 | an index above 128 is left alone; any other becomes one of the death, solid or solid-and-no-hook flags, or 0 |
| Collision.SolidAfterClassify | src/game/collision.cpp:203-216 | a reclassified cell has the solid flag exactly when its raw tile was TILE_SOLID or TILE_NOHOOK |
| Collision.ReadIndex | src/game/collision.cpp:225 | a stored index above 128 reads as 0, any other as itself |
| Collision.CellOf | src/game/collision.cpp:222-223 | the clamped cell of a coordinate lies inside the grid |
| Collision.CellOfExplicit | src/game/collision.cpp:222-223 | negative coordinates read the first cell, coordinates past the edge the last one, others `x/32` |
| Collision.CellIndexInRange | src/game/collision.cpp:225 | `Ny*Width+Nx` of an in-grid cell indexes the `Width*Height` array |
| Collision.CellIndex | src/game/collision.cpp:222-225 | the index `GetTile` reads is always inside the grid |
| Collision.CellOfCentre | src/game/collision.cpp:222 | the centre of a cell lies in that cell |
| Collision.MatchingLayersExact | src/game/collision.cpp:37-55 | a zone list holds exactly the offsets of the tile and quad layers with that name, in ascending order |
| Collision.ZoneValueStep | src/game/collision.cpp:130-183 | last write wins: a layer writing nothing (a cell reading 0 or above 128, no containing quad) keeps the earlier value, otherwise its last write replaces it |
| Collision.LayerValue | src/game/collision.cpp:132-182 | one layer of the zone list overwrites the value with each of its writes in order: its cell index when that reads 1 to 128, the colour-envelope offset of each containing quad |
| Collision.MovePoint | src/game/collision.cpp:262-298 | a clear destination moves the point by `vel` with no bounce; a blocked one leaves it in place; at most two bounces; a clear start never ends blocked |
| Collision.MovePointBounces | src/game/collision.cpp:269-292 | each blocked single-axis probe reflects that component with `-Elasticity` and counts one bounce; the corner case reflects both with no bounce |
| Collision.MovePointOntoFloor | src/game/collision.cpp:262-298 | a point falling onto a floor stays put, keeps its horizontal speed and reflects its vertical speed, with one bounce |
| Collision.TestBoxCorners | src/game/collision.cpp:300-312 | `TestBox` holds exactly when one of the four corner probes of the box is blocked |
| Collision.BoxStepStaysClear | src/game/collision.cpp:333-364 | a box that is clear before a sub-step is clear after it |
| Collision.BoxStepVelocity | src/game/collision.cpp:339-361 | a sub-step keeps each velocity component or reflects and damps it |
| Collision.BoxStepDamps | src/game/collision.cpp:339-361 | with elasticity in [0, 1] a sub-step never speeds the box up along an axis |
| Collision.BoxStepsDamp | src/game/collision.cpp:327-365 | with elasticity in [0, 1] no number of sub-steps speeds the box up along an axis |
| Collision.FreeFlight | src/game/collision.cpp:333-364 | through empty space each sub-step moves by `vel*Fraction` and keeps `vel` |
| Collision.MoveBoxFreeFlight | src/game/collision.cpp:326-365 | through empty space the `Max+1` sub-steps add up to `pos + vel` |
| Collision.SubStep | src/game/collision.cpp:333-364 | one pass of the `MoveBox` loop: revert y when the box at the old x is blocked, revert x when the box at the old y is blocked, both in the corner case |
| Collision.MoveBox | src/game/collision.cpp:314-370 | below 1e-5 nothing moves; otherwise `(int)|vel|+1` sub-steps of `1/(Max+1)`; a clear box stays clear; with elasticity in [0, 1] no axis speeds up |
| Collision.CCollision.constructor | src/game/collision.cpp:17-24 | no tiles, size 0, no zone group, no zones |
| Collision.CCollision.Init | src/game/collision.cpp:189-218 | each of the `Width*Height` cells is reclassified once in place, indices above 128 kept, every other cell untouched |
| Collision.CCollision.GetTile | src/game/collision.cpp:220-226 | the clamped cell's index, or 0 for an index above 128 |
| Collision.CCollision.IsTileSolid | src/game/collision.cpp:228-231 | a point reported solid reads a non-zero tile |
| Collision.GetTileAtCellCentre | src/game/collision.cpp:220-226 | the point at the centre of cell (i, j) reads that cell |
| Collision.IsTileSolidOnClassifiedGrid | src/game/collision.cpp:196-231 | on a grid `Init` reclassified, a point is solid exactly when the raw tile of its cell was TILE_SOLID or TILE_NOHOOK |
| Collision.CCollision.GetZoneHandle | src/game/collision.cpp:26-58 | -1 without a zone group; otherwise the previous zone count, with one list of the matching layer offsets appended |
| Collision.CCollision.GetZoneValueAt | src/game/collision.cpp:120-186 | 0 without a zone group or for a handle outside [0, zone count); otherwise the last value the zone's layers write, in list order |
| EngineMap.Unskip | src/engine/shared/map.cpp:58-59 | a copied tile equals its stored tile with `m_Skip` set to 0 |
| EngineMap.RunsAppend | src/engine/shared/map.cpp:54-63 | one more stored tile adds its run of `m_Skip+1` copies at the end |
| EngineMap.RunsSegment | src/engine/shared/map.cpp:54-63 | stored tile `k` fills `m_Skip+1` consecutive positions right after the runs of the tiles before it |
| EngineMap.RunPositions | src/engine/shared/map.cpp:54-62 | the run of stored tile `k` ends where the first `k + 1` stored tiles end, and every position in it holds that tile with `m_Skip` cleared |
| EngineMap.CopyRun | src/engine/shared/map.cpp:56-60 | the inner loop writes the run of the current stored tile, stopping at the end of the run or of the layer, and the tiles written so far are the expansion's prefix |
| EngineMap.RunLengthPrefix | src/engine/shared/map.cpp:54-63 | more stored tiles never expand to fewer tiles |
| EngineMap.RunsUnskipped | src/engine/shared/map.cpp:59 | every expanded tile has its skip count cleared |
| EngineMap.ExpandTiles | src/engine/shared/map.cpp:52-63 | the loop writes exactly `TilemapCount` tiles: the runs of the stored tiles in order, the last one cut short |
| EngineMap.DivideBack | src/engine/shared/map.cpp:42 | dividing a wrapped 32-bit product back gives the factor exactly when the product did not overflow |
| EngineMap.GuardUndefinedCases | src/engine/shared/map.cpp:39-42 | for `int` dimensions the guard's division traps exactly for width 0 and for width -1 with height `INT_MIN` |
| EngineMap.SizeAcceptedIffFits | src/engine/shared/map.cpp:39-46 | wherever the guard's divisions are defined, it accepts a tilemap exactly when its tile count and byte size fit a 32-bit `int` |
| EngineMap.OverflowFailsLoad | src/engine/shared/map.cpp:42-46 | a compressed tilemap (with dimensions the guard can divide by) whose byte size overflows makes the whole load fail |
| EngineMap.Load | src/engine/shared/map.cpp:6-72 | false without kernel or storage, on a file that does not open or has no version item, or on a compressed tilemap that overflows or cannot be allocated; true otherwise |
| LocalizationFormat.SecondsSplit | src/teeuniverses/components/localization.cpp:811-826 | `sec:` shows seconds alone below a minute, minutes alone on whole minutes, and otherwise minutes, ", " and the remaining seconds |
| LocalizationFormat.TypeIsPrefix | src/teeuniverses/components/localization.cpp:787-827 | a placeholder type matches a tag exactly when it begins with the tag's first four characters |
| LocalizationFormat.Expand | src/teeuniverses/components/localization.cpp:787-827 | `str:` appends the string argument and `int:` its formatted number |
| LocalizationFormat.ExpandByTypePrefix | src/teeuniverses/components/localization.cpp:787-827 | only the first four characters of the type decide the format: "str:", "int:", "ulli", "uint", "perc", "sec:"; unsigned values are stored into an `int` first; any other type appends nothing |
| LocalizationFormat.FirstMatch | src/teeuniverses/components/localization.cpp:779-785 | the first argument whose name agrees with the placeholder name on its length, or -1 when none does |
| LocalizationFormat.Substitute | src/teeuniverses/components/localization.cpp:779-833 | a placeholder no argument matches appends nothing |
| LocalizationFormat.NameMatchIsPrefix | src/teeuniverses/components/localization.cpp:781 | a placeholder name selects an argument exactly when it is a prefix of the argument's name |
| LocalizationFormat.ScanStep | src/teeuniverses/components/localization.cpp:765-872 | what one character of the scanner appends and which state it leads to, in each state |
| LocalizationFormat.ExpandedAppend | src/teeuniverses/components/localization.cpp:765-877 | the output of two consecutive parts of a template is the concatenation of their outputs |
| LocalizationFormat.PlainText | src/teeuniverses/components/localization.cpp:765-877 | a template without `{` is appended verbatim |
| LocalizationFormat.PlaceholderExpands | src/teeuniverses/components/localization.cpp:765-877 | literal text, then a complete placeholder's substitution, then the rest of the template come out in order |
| LocalizationFormat.NamelessPlaceholderDropped | src/teeuniverses/components/localization.cpp:843-859 | a `{type}` without `:` appends nothing and the scan resumes after its `}` |
| LocalizationFormat.UnterminatedPlaceholderDropped | src/teeuniverses/components/localization.cpp:765-877 | a placeholder still open at the end of the template appends nothing |
| LocalizationFormat.UnclosedYieldsNothing | src/teeuniverses/components/localization.cpp:765-877 | without a `}` ahead, an open placeholder appends nothing |
| LocalizationFormat.ScanSuffixLiteral | src/teeuniverses/components/localization.cpp:765-877 | the scan of a template from a literal position is the scan of its suffix: what follows a placeholder does not depend on what precedes it |
| LocalizationFormat.ClosedPlaceholderStep | src/teeuniverses/components/localization.cpp:769-839 | appending a closed placeholder's text at its `}` leaves the same total output as the scan from the name state |
| Localization.NewEntry | src/teeuniverses/components/localization.h:67-71 | a new `CEntry` has every one of its seven slots NULL |
| Localization.Free | src/teeuniverses/components/localization.h:73-78 | `Free` releases exactly the non-null slots, each once, in order |
| Localization.PluralCode | src/teeuniverses/components/localization.cpp:249-265 | the plural code always indexes `m_apVersions` |
| Localization.PluralKeywords | src/teeuniverses/components/localization.cpp:249-265 | the six CLDR keywords select their own slots; any other first letter selects the singular slot |
| Localization.FillPluralsSlots | src/teeuniverses/components/localization.cpp:162-211 | storing the plural forms replaces exactly the slots whose form passes the test |
| Localization.StoredVersionsSlots | src/teeuniverses/components/localization.cpp:151-212 | a non-empty singular value fills the singular slot alone; otherwise each non-empty plural form fills its own slot; every other slot keeps its version |
| Localization.ShortPluralFormDropped | src/teeuniverses/components/localization.cpp:206-211 | as written, the "other" form "points" is dropped; with the corrected test it is stored |
| Localization.LanguageCodeByCountryCode | src/teeuniverses/components/localization.cpp:407-563 | total: a listed country's language code, or "" |
| Localization.CountryTableExamples | src/teeuniverses/components/localization.cpp:407-563 | 276 gives "de", 226 "es", and an unlisted code "" |
| Localization.CountryTableLastGroups | src/teeuniverses/components/localization.cpp:407-563 | 446 gives "zh-Hans" and 840 "en" |
| Localization.FallbackLanguageForIpCountryCode | src/teeuniverses/components/localization.cpp:565-578 | the fallback is one of "fa", "ru", "en" |
| Localization.FallbackFollowsCountryTable | src/teeuniverses/components/localization.cpp:565-578 | the fallback is the country table's language where that is Farsi or Russian, and English everywhere else |
| Localization.Language.constructor | src/teeuniverses/components/localization.cpp:25-83 | names copied into 64-character buffers, left-to-right, no translations |
| Localization.Language.SetWritingDirection | src/teeuniverses/components/localization.h:105 | sets the direction |
| Localization.StoredVersionsAsWrittenSlots | src/teeuniverses/components/localization.cpp:151-212 | as the code stores a record: a non-empty singular value fills the singular slot alone; otherwise each plural form longer than its type's index fills its own slot; every other slot keeps its version |
| Localization.Language.StoreRecord | src/teeuniverses/components/localization.cpp:146-212 | a record with a non-empty key gets that key's entry (a new empty one if needed) with its forms stored by the test the code applies (`StoredVersionsAsWritten`); every other key is unchanged |
| Localization.StoredValueIsFound | src/teeuniverses/components/localization.cpp:151-157 | after storing a record with a non-empty value, `Localize` of its key gives that value |
| Localization.Language.Localize | src/teeuniverses/components/localization.cpp:227-234 | the singular version of the key's entry, NULL without an entry |
| Localization.Language.LocalizeP | src/teeuniverses/components/localization.cpp:236-268 | the version in the slot the plural rules select, NULL when the key is absent or the rules fail |
| Localization.IndexOfFilename | src/teeuniverses/components/localization.cpp:583-592 | the first language with that file name, or -1 |
| Localization.Select | src/teeuniverses/components/localization.cpp:582-592 | the language with the code as file name, else the main language |
| Localization.Lineage | src/teeuniverses/components/localization.cpp:601-607 | the chain of languages a lookup consults holds at most five, all known languages |
| Localization.ResolveIsFirstHit | src/teeuniverses/components/localization.cpp:580-608 | a lookup returns the first translation along the parent chain, which is bounded by the depth limit even when parents form a cycle |
| Localization.ResolveIsTextOrVersion | src/teeuniverses/components/localization.cpp:580-608 | a lookup returns the text itself or a version stored in some language |
| Localization.NextMainFollowsConfig | src/teeuniverses/components/localization.cpp:380-405 | after `PreUpdate` the main language has the configured file name, is null exactly when none has it, and a second call changes nothing |
| Localization.Localization.constructor | src/teeuniverses/components/localization.cpp:273-279 | no main language, no language, no listener |
| Localization.Localization.InitConfig | src/teeuniverses/components/localization.cpp:292-297 | the configured main language becomes "en" |
| Localization.Localization.AddListener | src/teeuniverses/components/localization.cpp:366-369 | the listener is appended |
| Localization.Localization.GetWritingDirection | src/teeuniverses/components/localization.h:153 | left to right without a main language, else the main language's direction |
| Localization.Localization.FindLanguage | src/teeuniverses/components/localization.cpp:385-393 | the search loop finds the first language with the file name |
| Localization.Localization.PreUpdate | src/teeuniverses/components/localization.cpp:380-405 | the main language becomes the configured one (or null), and every listener is notified in order exactly when it changed |
| Localization.Localization.LocalizeWithDepth | src/teeuniverses/components/localization.cpp:580-608 | the lookup with parent fallback, as `Resolve` defines it |
| Localization.Localization.Localize | src/teeuniverses/components/localization.cpp:610-613 | the first translation along the lineage, or the text |
| Localization.Localization.LocalizeP | src/teeuniverses/components/localization.cpp:615-648 | the first plural translation along the lineage, or the text |
| Localization.Localization.AppendFormatted | src/teeuniverses/components/localization.cpp:650-674 | appends the formatted value, or the failure text (`_NUMBER_`, `_PERCENT_`, `_DURATION_`) when the formatter fails |
| Localization.Localization.AppendArgument | src/teeuniverses/components/localization.cpp:787-827 | appends the argument's expansion for the placeholder's type |
| Localization.Localization.AppendSeconds | src/teeuniverses/components/localization.cpp:811-826 | appends the `sec:` minutes-and-seconds text |
| Localization.Localization.AppendPlaceholder | src/teeuniverses/components/localization.cpp:779-833 | appends the substitution of the first matching argument, or nothing |
| Localization.Localization.ArabicShaping | src/teeuniverses/components/localization.cpp:927-965 | the text from the start position on is replaced by its shaped form and the text before it is kept |
| Localization.Localization.FormatStep | src/teeuniverses/components/localization.cpp:765-872 | one pass of the scanner loop appends what the scan appends for that character |
| Localization.Localization.AppendRendered | src/teeuniverses/components/localization.cpp:755-877 | the scanner appends exactly the template's expansion: literal text copied, each closed placeholder substituted, in order |
| Localization.Localization.FormatV | src/teeuniverses/components/localization.cpp:732-881 | appends the template verbatim without a language; otherwise its expansion, shaped when the language is right to left |
| Localization.Localization.FormatVL | src/teeuniverses/components/localization.cpp:893-898 | `Format_V` of the template's translation |
| Localization.Localization.FormatVLP | src/teeuniverses/components/localization.cpp:910-915 | `Format_V` of the template's plural translation |

## Left out

- Floating point: positions and velocities are reals. `CheckPoint`, quad containment, `Rotate`, the animation evaluator and `round_to_int` are parameters or left to the caller. `IntersectLine` is not modelled.
- Collision.MoveBox: `length(Vel)` needs a square root, so it is the parameter `distance`, required to be that length.
- Collision.CCollision.IsTileSolid: states only that a solid point reads a non-zero tile. Which raw tiles are solid is stated by `IsTileSolidOnClassifiedGrid` and `SolidAfterClassify`, because the flag values are symbolic.
- Collision.CCollision.Init: the game layer comes in as an array and its size. Finding the game layer in the map data is outside the model.
- EngineMap.Load: opening the data file, `FindItem`, `GetItem` and `GetData` are modelled by a `DataFile` value. Whether `mem_alloc` succeeds is a parameter.
- EngineMap.Load: the buffer allocated for each tilemap is never freed or stored in the source. The model drops it too.
- EngineMap.Load: a compressed tilemap of width 0, or of width -1 and height `INT_MIN`, makes the divide-back check at map.cpp:42 trap (a division by zero, or `INT_MIN / -1`). The model excludes both inputs through `GuardDefined`; `GuardUndefinedCases` shows these are the only ones.
- EngineMap.ExpandTiles: requires the stored tiles to expand to at least `TilemapCount` tiles. The source reads past the data otherwise.
- HashTable: an entry's key is a `dynamic_string` copy of the key, modelled by its contents. Data is copied by assignment (the default allocator).
- `CLanguage::Load`, `CLocalization::Init` and `~CLanguage`/`~CLocalization` are left out: JSON file reading, the language index, ICU objects and memory release. Only the storing of one parsed record is modelled (`StoreRecord`).
- Localization.Localization.LocalizeWithDepth: the lazy `Load` of a language on first use is left to the caller. The languages' translation tables are taken as they are.
- The ICU number, percent and duration formatters and the plural rules are functions given with each language. A conversion to UTF-8 that fails after the buffer has grown counts as a formatter failure.
- Localization.Localization.ArabicShaping: the ICU bidi and shaping step is the parameter `shapeArabic`. The model states the replacement and the buffer growth, not the shaping itself.
- Templates are sequences of characters. `str_utf8_forward` steps one character, and UTF-16 lengths are taken as character counts.
- `Format`, `Format_L` and `Format_LP` only package their variable arguments for `Format_V`, `Format_VL` and `Format_VLP`. Arguments are a sequence of name/value pairs, and the variable-argument plumbing is left out.
- `RemoveListener` is not modelled: it relies on `array::remove_index`, which is not part of this model. Listeners are numbers, and notifying one is recorded in `notified`.
- The default `CLanguage()` constructor and the default `iterator()` are not modelled. No modelled operation uses them.
- The iterator constructor taking a table, `Id` and `SubId` is modelled only as it is used, by `end()` (`HashTable.Iterator.End`).
- LocalizationFormat.Expand: its own contract names only the `str:` and `int:` types. The other four are stated by `ExpandByTypePrefix`.
- `ParamTypeLength` in `Format_V` is set and never read, so it is not modelled.
- `IsLoaded` and the `GetName`/`GetFilename`/`GetParentFilename` accessors of `CLanguage` read a field. They are the fields of `Localization.Language`.
- SystemString.DynamicString.AppendAt: the doubling of `NewSize` is unbounded here. In the source it can overflow an `int` for huge strings.
- SystemString.DynamicString.AppendAt, AppendAtNum, Append and AppendNum require a buffer (`maxsize() > 0`). On a string emptied by `transfert`, the source's doubling loop starts from 0 and never ends.
- The appends of the string cores require `Pos` to lie within the current text, which is how every caller uses them.
- The `string<>` constructor that copies a C string is the constructor followed by `Copy`. The template overloads of `copy`, `append`, `append_num` and the comparisons that take another string use its buffer exactly like the `const char*` overloads.
- Localization.PluralTestAsWritten: reading a plural form past its terminator goes beyond the string in the source. The model takes those bytes as zero.

## Findings

| source | as written | input that shows it | evidently intended | confidence | as-written member | corrected member |
|---|---|---|---|---|---|---|
| src/teeuniverses/tl/hashtable.h:186-190 | the loop of `operator++` steps `m_Id` to TABLESIZE and then calls `get_subtable_size(m_Id)` before the loop test stops it, reading `m_Table[TABLESIZE]`, one past the array | a table holding one entry: `operator++` from `begin()` steps `m_Id` up to TABLESIZE and reads `m_Table[TABLESIZE].size()` | stop before reading the size of a bucket that does not exist | high, not executed | HashTable.IncrementReadsPastLastBucket | HashTable.Iterator.Next |
| src/teeuniverses/components/localization.cpp:162-211 | a plural form is stored only when `pPlural[t]` is not NUL, where `t` is the plural type (1 to 6), so forms of `t` characters or fewer are dropped (and shorter ones are read past their end) | the record `{"key": "points", "one": "point", "other": "points"}`: "points" has six characters, `pPlural[6]` is its terminator, so the "other" version is never stored | test `pPlural[0]`, as for the singular value: store every non-empty form | high, not executed | Localization.ShortPluralFormDropped | Localization.StoredVersionsSlots |

`Language.StoreRecord` stores records with the test as the code writes it (`StoredVersionsAsWritten`), so the model drops such forms as the code does. The corrected storing is `StoredVersions`, stated slot by slot in `StoredVersionsSlots`.
