# ddraft core in Dafny

A model of the card-pool and draft engine of ddraft, a booster-draft simulator. The model has five parts.

- **The cube** (`cube.dfy`, module `Cubes`).
  - The loaded card list is sorted by name, and each card gets its position as its index.
  - A name→card map and a card→position map are built from the sorted list.
  - Cards are looked up by exact name.
  - The digest is a hash over the sorted names, concatenated without separator, and it is cached. The hash (MD5 in ddraft) is a function parameter.
  - Reloading compares the stored digest and wipes the store when the cube changed.
  - Card lists are encoded as compact URL-safe tokens, and tokens are decoded back. A token is the unsigned LEB128 varints of the cards' positions (`varint.dfy`), base64-encoded per section 4 of RFC 4648 (`base64.dfy`). In the base64 text `+` becomes `.` and `/` becomes `_`.
- **The draft** (`draft.dfy`, module `Drafts`).
  - A fresh draft deals a random 360-card sample into packs of 15 and then into three packs per seat, for eight seats.
  - Seats are saved to the key-value store by card name and rebuilt by name lookup.
  - `seatToShow` is a reduce over the seats, modelled together with the order it maximises.
  - `seatImages`, `getPack`, `packNumber` and `checkSeatNumber` are the per-seat accessors.
- **`swapInArray`** (`utils.dfy`, module `Utils`). An imperative loop, modelled on the array's contents.
- **`Card`** (`card.dfy`, module `Cards`). The card record and its two Scryfall links.
- **The image cache's fetch step** (`image_cache.dfy`, module `ImageCache`).
  - The `?cmc` key dispatch.
  - The five-column grid of 745×1040 card images.

Support modules:
- `Wrappers`: `Option` and `Result`.
- `Bytes`: the byte type.
- `Sequences`: `map`, flatten and lodash `chunk`.
- `Orders`: JavaScript's string order, and lodash's `sortBy` as a stable insertion sort.
- `Database`: the store, modelled as a map with get, set and clear.

Errors ddraft throws become `Result.Failure` or `Option.None`.

Facts about the code that shape the model:
- Seats hold a single `currentPack`.
- The code has no pick, swap, substitution or fuzzy matching.
- Card names need not be distinct. `getCard` returns the last card with the name, because later entries overwrite earlier ones in `cardsByName`.
- Names are joined without a separator before hashing, so "a"+"bc" and "ab"+"c" hash alike (`Cubes.DigestInputJoinsNames`).

## Model

| member | source | states |
|---|---|---|
| Cards.Url | src/card.ts:9-11 | The page link is `https://scryfall.com/card/` followed by the set code, `/` and the collector number. |
| Cards.ImageUrl | src/card.ts:13-15 | The image link is `https://api.scryfall.com/cards/`, then the same `set/number` path, then `?format=image&version=png`. |
| Cards.LinksDependOnPrintingOnly | src/card.ts:9-15 | Both links depend only on set and collector number, not on name or index. The page link and the image link carry the same `set/number` path. |
| Cards.LinksIdentifyPrinting | src/card.ts:9-15 | Set codes contain no `/`. Under that condition two cards have the same page link, and the same image link, exactly when they share set and collector number. |
| Orders.SortBy | src/cube.ts:89 | `sortBy(cards, name)`: the result is a permutation of the input and is sorted by the key. |
| Orders.SortedStringsUnique | src/cube.ts:101-103 | Two sorted lists with the same elements are equal, so `.sort()` of any arrangement of the same names gives one list. |
| Sequences.Chunk | src/draft.ts:29-32 | lodash `chunk`: every piece is non-empty and at most `n` long, and every piece but the last is exactly `n` long. |
| Sequences.FlattenChunk | src/draft.ts:29-33 | Concatenating the chunks gives back the input. |
| Sequences.ChunkOfMultiple | src/draft.ts:29-33 | An input of `k*n` elements gives `k` chunks, and the i-th chunk is the i-th slice of length `n`. |
| Sequences.Collect | src/draft.ts:47-48 | A `map` whose callback may throw succeeds exactly when every element does, and then holds every element's value in order. |
| Sequences.CollectReportsFirstFailure | src/draft.ts:47-48 | When it fails, the error is that of the first failing element, and every earlier element succeeded. |
| Sequences.MultisetMap | src/cube.ts:101-102 | Mapping (here taking names) carries a permutation of the input to a permutation of the output. |
| Varint.Encode | src/cube.ts:122 | LEB128 encoding: at least one byte. Every byte but the last has the continuation bit set, and the last has it clear. The last byte is non-zero unless it is the only one. A single byte exactly for values below 128. |
| Varint.DecodeOne | src/cube.ts:136-137 | Reads one varint and reports the bytes consumed. The consumed bytes end at the first byte with a clear high bit. Fails exactly when no byte has a clear high bit. |
| Varint.DecodeEncode | src/cube.ts:121-137 | Decoding an encoded value, whatever follows it, gives the value and its encoded length. |
| Varint.EncodeAll | src/cube.ts:120-123 | The buffer holds one final byte per value, so it has one varint per card, and a non-empty buffer ends with a final byte. |
| Varint.DecodeAll | src/cube.ts:135-139 | The loop until the bytes are exhausted succeeds exactly when the stream is empty or ends with a final byte. |
| Varint.DecodeAllEncodeAll | src/cube.ts:121-122 | Decoding concatenated encodings gives back the values in order. |
| Varint.DecodeAllCount | src/cube.ts:135-139 | The number of decoded values equals the number of bytes with a clear high bit. |
| Base64.CharOf | src/cube.ts:125 | Each sextet value has an alphabet letter that decodes back to it. |
| Base64.CharOfValueOf | src/cube.ts:124-133 | Conversely, every alphabet letter is the letter of its own value, so the letter table and its decoding are inverse. |
| Base64.Encode | src/cube.ts:124-125 | The encoding has 4·⌈n/3⌉ characters. |
| Base64.Decode | src/cube.ts:131-133 | Decoded text is a whole number of four-character groups, with `=` allowed only in the last two places. For g groups the output has between 3g-2 and 3g bytes. |
| Base64.EncodeAlphabet | src/cube.ts:124-125 | Encoded text contains only alphabet letters and `=`. |
| Base64.DecodeEncode | src/cube.ts:124-133 | Decoding the encoding of any byte string gives back those bytes. |
| Cubes.SortedCards | src/cube.ts:88-89 | The cube's card list: as long as the input, sorted by name, each card's index its position, and the same printings as the input with multiplicity. |
| Cubes.Build | src/cube.ts:88-95 | After the constructor's loop every card is keyed under its position and its name. Every position key points back to its card. Every name key points to the last card with that name. The digest is not yet computed. |
| Cubes.EnterCard | src/cube.ts:91-93 | One turn of the constructor's loop keeps both maps consistent with the cards entered so far. |
| Cubes.GetCard | src/cube.ts:109-113 | Succeeds exactly when some card has the name. On success it returns a card of the cube with that name, with no later card sharing the name. Otherwise it fails with `NotInCube(name)`. |
| Cubes.GetCardFindsEveryCard | src/cube.ts:109-113 | When names are distinct, looking up any card's name returns that card. |
| Cubes.CubeCardsArePositioned | src/cube.ts:90-94 | A card has a recorded position exactly when it is in the cube. |
| Cubes.ReadDigest | src/cube.ts:97-106 | The getter caches the value it returns and changes nothing else. An already cached value is returned as is. |
| Cubes.ReadDigestIsCached | src/cube.ts:97-106 | From a current cache, a read returns the hash of the sorted names and keeps the cache current. A second read returns the same digest and leaves the cube unchanged. |
| Cubes.DigestInputOfSortedCards | src/cube.ts:101-104 | For a cube, whose cards are already in name order, the digest's own sort changes nothing. |
| Cubes.DigestInputIgnoresOrder | src/cube.ts:100-104 | The digest depends only on the multiset of names. |
| Cubes.DigestIgnoresLoadOrder | src/cube.ts:88-104 | Permuting the loaded card list does not change the digest. |
| Cubes.DigestInputJoinsNames | src/cube.ts:104 | Two cubes with different names ("a","bc" and "ab","c") feed the hash the same text. |
| Cubes.TwoNames | src/cube.ts:101-104 | The digest text of a two-card cube in name order is the two names joined. |
| Cubes.Reload | src/cube.ts:33-44 | Afterwards the store holds the new digest. It is wiped exactly when a stored digest existed and differed. Otherwise every other key is untouched. The cube comes back with its digest cached. |
| Cubes.ReloadKeepsDraftIffSameCube | src/cube.ts:147-153 | Stored seats survive a reload exactly when no digest was stored or the stored digest matches. |
| Cubes.ReloadIsIdempotent | src/cube.ts:147-153 | Reloading the same cube a second time changes neither the store nor the cube. |
| Cubes.ToUrlSafe | src/cube.ts:126-127 | The rewrite keeps the length and leaves no `+` or `/`. |
| Cubes.FromUrlSafe | src/cube.ts:132 | The rewrite keeps the length and leaves no `.` or `_`. |
| Cubes.UrlSafeRoundTrip | src/cube.ts:126-132 | On text without `.` and `_`, as base64 text is, the two rewritings undo each other. |
| Cubes.EncodeIndexes | src/cube.ts:120-127 | A token is a whole number of four-character groups. It uses only the URL-safe alphabet, with no `+`, `/` or `?`. |
| Cubes.DecodeIndexes | src/cube.ts:131-139 | Fails exactly when the base64 decode fails or the bytes end inside a varint. A decoded token gives one position per varint terminator in its bytes. |
| Cubes.DecodeIndexesEncodeIndexes | src/cube.ts:119-141 | Every list of positions survives the trip through a token, including the empty list, order and repeats. |
| Cubes.Lookup | src/cube.ts:138 | `this.cards[index]`: a card exactly when the position is inside the cube, and then the cube's card at that position, whose index is the position. |
| Cubes.IndexesOf | src/cube.ts:121-122 | One position per card, in input order: in a constructed cube each is the card's own index, and the cube holds that card there. |
| Cubes.EncodeCards | src/cube.ts:119-128 | The token is a whole number of four-character groups, in the URL-safe alphabet. |
| Cubes.DecodeCards | src/cube.ts:130-141 | Decoding succeeds exactly when the token decodes to positions. There is one entry per position. An entry is a card exactly when its position is inside the cube. It is then the cube's card at that position, whose index is the position. |
| Cubes.DecodeCardsEncodeCards | src/cube.ts:119-141 | `decodeCards(encodeCards(cs)) == cs` for every list of cube cards, including empty lists, order and repeats. |
| Drafts.DealSeats | src/draft.ts:29-41 | Every freshly dealt seat has nothing drafted, nothing sideboarded and no read time. |
| Drafts.DealKeepsEveryCard | src/draft.ts:29-41 | Reading every seat's current pack and unopened packs in seat order gives back the sample exactly. |
| Drafts.DealOfFullSample | src/draft.ts:29-41 | A 360-card sample gives 8 seats. Each has a 15-card current pack and two unopened 15-card packs. |
| Drafts.DealKeepsCardsInCube | src/draft.ts:29-33 | A sample drawn from the cube deals only cube cards. |
| Drafts.HeldCardIsInPacks | src/draft.ts:33-41 | A card held by a freshly dealt seat is in the flattened deal. |
| Drafts.DeserializeReadTime | src/draft.ts:58 | A stored time reads back unchanged, except that `null` and 0 both read as never shown. |
| Drafts.DeserializeCards | src/draft.ts:47-48 | Succeeds exactly when every name is in the cube, giving the `getCard` result of each name in order. |
| Drafts.DeserializeCardsReportsFirstUnknown | src/draft.ts:47-48 | On failure the error names the first name that is not in the cube. |
| Drafts.DeserializePacks | src/draft.ts:57 | Succeeds exactly when every pack's names resolve, giving each pack's cards in order. |
| Drafts.DeserializeSeats | src/draft.ts:50-59 | Succeeds exactly when every stored seat rebuilds, giving the rebuilt seats in order. |
| Drafts.DeserializeSeat | src/draft.ts:53-59 | Rebuilds a seat exactly when all four card lists resolve. The first failing list's error is reported, in the order drafted, sideboard, current pack, unopened packs. The read time is read back by `DeserializeReadTime`. |
| Drafts.DeserializedCardsInCube | src/draft.ts:47-48 | Every card a name list resolves to is a card of the cube. |
| Drafts.DeserializedSeatsInCube | src/draft.ts:53-59 | Every card held by rebuilt seats is a card of the cube. |
| Drafts.LoadedSeatsInCube | src/draft.ts:43-60 | A draft rebuilt from stored seats holds only cube cards. |
| Drafts.CardsRoundTrip | src/draft.ts:140-142 | Card names that resolve to their own cards read back as those cards. |
| Drafts.SeatRoundTrip | src/draft.ts:126-137 | Saving and loading a seat whose cards resolve by name gives the seat back, unless it was last shown at time 0. |
| Drafts.NamesRoundTrip | src/draft.ts:47-48 | The names of the cards a name list resolves to are that name list. |
| Drafts.StoredSeatRoundTrip | src/draft.ts:53-59 | Loading a stored seat and saving it writes back what was stored, with a stored 0 written back as `null`. |
| Drafts.StoredSeatsRoundTrip | src/draft.ts:53-59 | The same for the whole seat list. |
| Drafts.Save | src/draft.ts:126-137 | `save` writes the seats, by name, under "seats". No other key and no seat changes. |
| Drafts.SerializeSeat | src/draft.ts:129-135 | Each card list becomes the list of its cards' names, position by position, each unopened pack likewise. The read time is kept. |
| Drafts.SerializeSeats | src/draft.ts:129-135 | One stored seat per seat, in order, each the seat's serialisation. |
| Drafts.LoadOrCreate | src/draft.ts:26-62 | With no seats stored, the draft is the deal of the sample, saved. With seats stored, it succeeds exactly when they are a seat list whose names all resolve. It then leaves the store as it was, its seats are the `getCard` results of the stored names, and they save back to the stored form. |
| Drafts.LoadAfterSave | src/draft.ts:26-62 | Loading what `save` wrote restores the draft, when every card resolves by name and no seat was shown at time 0. |
| Drafts.DistinctNamesResolve | src/draft.ts:47-48 | In a cube with distinct names every card of a seat resolves by name. |
| Drafts.Reduce | src/draft.ts:72-86 | The reduce picks one of the seats it ran over. |
| Drafts.PrecedesTransitive | src/draft.ts:75-85 | The seat order the reduce uses is transitive. |
| Drafts.PrecedesAsymmetric | src/draft.ts:75-85 | The seat order is asymmetric. |
| Drafts.BetterIsPreferred | src/draft.ts:74-86 | One reduce step keeps the preferred of the two seats. The order is: fewer picks; then never shown, the lowest index first; then earliest read time, the later index on equal times. |
| Drafts.Better | src/draft.ts:74-86 | One reduce step returns one of its two seats, and that seat has no more picks than either. |
| Drafts.ReduceIsShownAmong | src/draft.ts:72-86 | The reduce returns the seat preferred to every other. |
| Drafts.ShownAmongIsUnique | src/draft.ts:72-86 | At most one seat is preferred to every other, so that description determines the choice. |
| Drafts.ShownSeatIsBehind | src/draft.ts:75-85 | The chosen seat has the fewest picks. If a seat with equally few picks was never shown, the chosen seat was never shown either. |
| Drafts.SeatToShow | src/draft.ts:71-91 | Fails exactly on a draft without seats. Otherwise it returns the seat preferred to every other and stamps only that seat with the current time. Every other seat and every card list are unchanged, and the result is saved. No store key other than "seats" changes. |
| Drafts.CheckSeat | src/draft.ts:120-124 | Rejects exactly the seat numbers outside [0, 8), and fails as well for a seat number past the stored seats. |
| Drafts.GetPack | src/draft.ts:110-113 | Succeeds exactly when the seat number is admitted, returning that seat's current pack. |
| Drafts.PackNumber | src/draft.ts:115-118 | Succeeds exactly when the seat number is admitted. The pack number plus the number of unopened packs is 3. |
| Drafts.FreshDraftOnFirstPack | src/draft.ts:115-118 | In a freshly dealt full draft every seat is on pack 1, with a current pack of 15 cards. |
| Drafts.SeatImages | src/draft.ts:93-108 | Fails exactly for a seat number with no seat. The result has only the two link keys. `deck_image` is present exactly when cards are drafted, and `sideboard_image` exactly when the sideboard is non-empty. |
| Drafts.SeatCardsInCube | src/draft.ts:97-105 | A seat's drafted and sideboard cards have cube positions, so they can be encoded. |
| Drafts.SeatImagesShowSeat | src/draft.ts:97-105 | Each link is `/image/` followed by a token that decodes to exactly the list it shows. |
| Utils.SwapInArray | src/utils.ts:1-9 | Length is unchanged. Every `element1` becomes `element2`, and every other `element2` becomes `element1`. Other positions are unchanged. |
| Utils.SwapTwiceRestores | src/utils.ts:1-9 | Swapping the same two values twice restores the array. |
| Utils.SwapCounts | src/utils.ts:2-8 | Afterwards each of the two values occurs as often as the other did before. All other values keep their counts. |
| Database.Get | src/db.ts:30-32 | A value exactly for a stored key, and then the stored value. |
| Database.Set | src/db.ts:34-37 | Afterwards the key reads back the value and every other key reads as before. The keys are the old keys plus that one. |
| Database.Clear | src/db.ts:39-42 | Afterwards no key has a value. |
| ImageCache.ParseKey | src/image_cache.ts:15-16 | A key is a pile key exactly when it ends in `?cmc`. Its token is then the key without those four characters. Any other key is decoded whole. |
| ImageCache.PileKeyRoundTrip | src/image_cache.ts:15-16 | Appending `?cmc` to a token and parsing gives back the token as a pile key. |
| ImageCache.TokensAreGridKeys | src/image_cache.ts:43 | An encoded card list used as a key always selects the grid. |
| ImageCache.NoMarkNoSuffix | src/image_cache.ts:15 | Text in the token alphabet never ends in `?cmc`. |
| ImageCache.GridRows | src/image_cache.ts:45 | `ceil(n / 5)`: the fewest rows of five that hold `n` cards. |
| ImageCache.GridPicture | src/image_cache.ts:44-61 | The canvas is 5×745 wide and ⌈n/5⌉×1040 tall. There is one tile per card, showing that card's PNG image. Tile i sits at 745·(i mod 5) across and 1040·⌊i/5⌋ down. |
| ImageCache.TilesInsidePicture | src/image_cache.ts:45-61 | Every 745×1040 tile lies inside the canvas. |
| ImageCache.TilesDisjoint | src/image_cache.ts:60-61 | No two tiles overlap. |
| ImageCache.TilesInReadingOrder | src/image_cache.ts:60-61 | Tiles fill the canvas row by row, left to right. |
| ImageCache.TileAt | src/image_cache.ts:56-61 | Tile `i` shows the card's image link. It sits in column `i % 5` and row `i / 5`, on whole-card offsets, inside the five-column width. |
| ImageCache.PictureIsTight | src/image_cache.ts:45-49 | A non-empty grid's last row holds a card, so the canvas is no taller than needed. |
| ImageCache.GridFetch | src/image_cache.ts:43-65 | The grid fetch succeeds exactly when the key decodes and every position names a cube card. The canvas is then 5×745 wide and ⌈n/5⌉×1040 tall for n decoded cards. Tile i shows decoded card i at 745·(i mod 5) across and 1040·⌊i/5⌋ down. |
| ImageCache.AllPresentExact | src/image_cache.ts:55-63 | A decoded list is usable exactly when every entry is a card, and then it is those cards in order. |
| ImageCache.GridFetchOfEncoded | src/image_cache.ts:43-65 | Fetching the grid for an encoded card list lays out exactly those cards, in order. |

## Left out

- Loading the cube list is left out: the CSV download, the Scryfall lookups for missing mana value and MTGO id, and `parseInt` (src/cube.ts:46-86). These are network I/O. The loaded list is the input `raw` of `Cubes.Build`.
- The module-level first load (src/cube.ts:144-145) is left out. It is the same network load.
- MD5 is not modelled. The hash is a function parameter `hash`, applied to the text ddraft feeds to `hash.update`.
- `getRandomCards` is random. The sample is a parameter of `Drafts.LoadOrCreate`, and `Cubes.IsRandomSample` states what `sampleSize` guarantees: the clamped count, and no cube position drawn twice.
- The `varint` and `byte-base64` libraries are not part of this model. They are replaced by standard encoders and decoders. Where the libraries would throw, a decode returns `None`. The libraries' leniency towards non-canonical input is not modelled, for example `Base64.Decode` accepts non-zero pad bits. Their limit of 53-bit integers is not modelled either, because positions are unbounded naturals.
- src/db.ts is reduced to a map with get, set and clear. File persistence, JSON cloning and freezing are left out. A stored value is either text or a seat list. Other JSON shapes under "seats" give `MalformedSeats`. Per-field type errors inside a stored seat are not modelled.
- src/index.ts is left out. It is a separate script repeating the digest check.
- The image cache's LRU cache, `sharp` compositing, image downloads and WebP output are left out, because they are I/O and imaging. The `?cmc` pile picture is left out because it relies on `Card.pileByCmc`, which src/card.ts does not define, and on a fractional row offset. Re-setting `version=png` on the image URL is left out; it is a no-op because the URL already carries that parameter.
- ImageCache.GridFetch: an empty token decodes to no cards and gives a canvas of height 0. Whether `sharp` accepts a zero-height canvas is up to that library, which is not part of this model.
- Clock reads are left out. `new Date()` is the integer parameter `now` of `Drafts.SeatToShow`, in epoch milliseconds. Dates compare by that number.
- The constructor in src/cube.ts passes five arguments to a four-field `Card`. The model uses the cube position as the card's index, as `indexesByCard` does.
- Cubes.GetCard: `cardsByName` is a plain JavaScript object. A name such as `constructor` or `__proto__` finds an inherited property instead of failing. The model treats the map as holding only the cube's names.
- Orders.StrLe: JavaScript compares strings by UTF-16 code unit. The model compares Dafny characters, which agrees with that except for characters outside the Basic Multilingual Plane.
- Orders.SortBy: the result is stated to be sorted and a permutation of the input. lodash's stability among equal names is implemented but not stated.
- Cubes.EncodeCards: it requires every card to have a recorded position, as ddraft's `!` assertion assumes. ddraft's behaviour on a foreign card is not modelled.
- Drafts.SeatImages: it requires the draft's cards to belong to the cube, for the same reason.
- Cubes.DecodeCards: an out-of-range position gives `None` in its entry, where ddraft puts `undefined` in the list.
- Drafts.SeatToShow: a draft without seats returns `None`, where ddraft's `reduce` throws a `TypeError`.
- Drafts.Seat: a read time is an integer. Invalid dates (`NaN`) are not modelled.
