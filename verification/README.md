# SVG headshot composer — a Dafny model

This project models the core of a small headshot generator in Dafny and proves properties of the model. The generator builds cartoon headshots from two kinds of SVG layers: a body (`Body1` .. `Body12`) and a hair layer (`Hair1` .. `Hair16`).

- **Server cache** (`server/app.py`). Each layer document is parsed once. It is then walked in pre-order, and the element carrying each recognised `id` is remembered as a colour slot:
  - `skin` or `hair` for the layer's main colour;
  - `accessory` for the accessory colour.
- **Composition** (`server/app.py`). One request draws:
  - a skin/hair colour pair from the palette;
  - one body and one hair layer.

  It sets `fill` on the slots that are present. It then appends the children of both roots, body first, to a fresh `svg` root. `xml.etree.ElementTree` keeps no parent links, so the children stay in the cached roots as well.
- **Standalone preprocessing** (`server/preprocess.py`). This step globs `Body*.svg` and `Hair*.svg`, then for each file:
  - keeps the parsed root;
  - inserts a provenance comment as the root's first child;
  - records which slot ids occur (`Head`, the `Tie`/`TieKnot`/`Bowtie` list, `hair`, `accessory`);
  - stores the record under the file's stem.
- **Client rules** (`client/body-svg-generator/src/ColorPicker.tsx`). The colour picker has three pure rules:
  - the bounded list of recent colours;
  - the map from part name to element id;
  - the Tie/Bowtie visibility rule.

Modules, one per concern:

- `Wrappers`: `Option` and `Result`.
- `SvgTree`: documents as trees of elements and comments.
  - `Visits` is the pre-order sequence of positions, i.e. what `iter()` visits.
  - `SetFill` writes `fill` at one position.
- `SlotIndex`: the slot discovery loop of `server/app.py`. A slot is the pre-order position of the element.
  - `Scan` models the `root.iter()` loop (`server/app.py:24-29`); `IndexLayer` runs it over one document.
- `AppCache`: the cache of the 28 catalogue documents.
  - `BuildCache` models `preprocess_svgs` of `server/app.py` (lines 13-48). `IndexUpTo` models each of its two loops.
  - The file system is a map from path to parsed document.
  - A missing path is a file the parser rejects.
- `Composer`: one request. The random draws and the palette are parameters.
  - `Generate` models `generate_svg_headshot` (`server/app.py:68-104`).
  - `Colour` models the slot writes (lines 81-90), and `Merge` the new root and the appends (lines 93-99).
- `Paths`: `os.path.join`, `os.path.basename`, `os.path.splitext` and the `Prefix*.svg` glob.
- `Preprocess`: the standalone preprocessing step. A directory listing is a sequence of directory entries, each a name with its parsed document or `None`. The glob is the `Picked` filter applied to that listing.
  - `PreprocessAll` models `preprocess_svgs` of `server/preprocess.py` (lines 11-60).
  - `IndexFiles` models each of its two loops, and `IndexFile` one iteration.
  - `ScanBodyIds` and `ScanHairIds` model the two `root.iter()` loops (lines 28-33 and 52-57).
- `ColorPicker`: the client rules.

Behaviour of the code that the model keeps as written:

- Palette entries are unpacked as (skin, hair) pairs (`server/app.py:70`).
- A document with two elements carrying the same slot id is not rejected: the last one in pre-order wins.
- A missing slot is not an error: it stays `None` and is skipped when colouring.
- The composed root carries only the `xmlns` attribute (`server/app.py:93`), so the body root's `viewBox`, `width` and `height` are dropped. `Composer.MergeVisits` states the root's attributes exactly.
- The composed output holds no provenance comment: nothing is inserted before the body's children.

The two cache builders produce records of different shapes:

- `server/app.py` stores element references under `skin`/`hair`/`accessory`.
- `server/preprocess.py` stores id strings, keeps `Head` rather than `skin`, and keeps a list of `accessories`.

They are modelled separately, as written.

## Model

| member | source | states |
|---|---|---|
| `SvgTree.SetFillOnlyTarget` | server/app.py:81-90 | Writing `fill` at one position keeps the document's shape and every other position, and sets `fill` there to the colour. |
| `SlotIndex.ScanFindsLast` | server/app.py:24-29 | Each slot the loop records is the last position in pre-order carrying that slot's id. A slot stays `None` exactly when no position carries its id. |
| `SlotIndex.ScanIgnoresUnrecognised` | server/app.py:25-29 | Positions whose id is neither the main nor the accessory id leave the slot record unchanged, however many follow. |
| `SlotIndex.IndexLayerFindsSlots` | server/app.py:22-46 | For a body or hair document, a slot is present iff some node carries its id. It then names the last such node, and the record fits the document. |
| `AppCache.DecimalInjective` | server/app.py:31 | The decimal rendering of `f'Body{i}'` is injective, so different numbers give different keys. |
| `AppCache.KeyForInjective` | server/app.py:31-48 | Cache keys determine role and number: no two catalogue documents share a key, and no body key is a hair key. |
| `AppCache.IndexUpToSucceeds` | server/app.py:17-20 | One role's pass succeeds iff every one of its files parses. A failure names the path of the first file, in loop order, that does not parse. |
| `AppCache.IndexUpToAdds` | server/app.py:17-31 | After a successful pass, each key `1 .. n` of the role holds the entry indexed from its own file. |
| `AppCache.IndexUpToAddsKey` | server/app.py:17-31 | After a successful pass, the file of each key `k` in `1 .. n` is present, and the key holds the entry indexed from that file. |
| `AppCache.BuildCacheSucceeds` | server/app.py:13-48 | The build succeeds iff all 12 body files and all 16 hair files parse. |
| `AppCache.BuildCacheHasBodies` | server/app.py:17-31 | A built cache maps every `Body1` .. `Body12` to the entry of its own file, even after the hair pass. |
| `AppCache.BuildCacheHasHairs` | server/app.py:34-48 | A built cache maps every `Hair1` .. `Hair16` to the entry of its own file. |
| `AppCache.BuildCacheOnlyCatalogue` | server/app.py:13-48 | A built cache holds no key outside the catalogue, and every slot record fits its document. |
| `Composer.ColourOnlySlots` | server/app.py:81-90 | Colouring a layer changes only its present slots. The main slot gets the main colour, the accessory slot the accessory colour, and the document's shape is unchanged. |
| `Composer.MergeVisits` | server/app.py:93-99 | The merged document is an `svg` root with the SVG namespace, then the body's nodes below its root, then the hair's nodes below its root, in order. |
| `Composer.DrawnKeysCached` | server/app.py:72-78 | Every key a request can draw is in a cache built by `preprocess_svgs` of `server/app.py`, with the role the request expects, so the lookups into such a cache cannot fail. A cache loaded from an existing `svg_cache.pkl` carries no such promise (see "## Left out"). |
| `Composer.GenerateSucceeds` | server/app.py:68-78 | Against a cache built by `preprocess_svgs` of `server/app.py`, a request fails only when the palette is empty, and then with the empty-palette error. A cache loaded from an existing `svg_cache.pkl` carries no such promise (see "## Left out"). |
| `Composer.GenerateColoursBody` | server/app.py:80-96 | In the output, the body's positions come first. Its skin slot carries the drawn skin colour, its accessory slot the accessory colour, and every other body position is as cached. |
| `Composer.GenerateColoursHair` | server/app.py:86-99 | The hair's positions follow the body's. Its hair slot carries the hair colour of the same palette pair, its accessory slot the accessory colour, and every other hair position is as cached. |
| `Paths.LastIndexOf` | server/preprocess.py:25 | The result is the last position of the character, or `None` when it does not occur, as `str.rfind` returns. |
| `Paths.Basename` | server/preprocess.py:25 | The base name holds no `/`, is a suffix of the path, and is the whole path when the path has no `/`. |
| `Paths.BasenameAfterLastSlash` | server/preprocess.py:25 | The base name is shorter than the path iff the path holds a `/`. It is then preceded by a `/`, which is the path's last one, so it is exactly what follows the last `/`. |
| `Paths.BasenameOfJoin` | server/preprocess.py:15-25 | The base name of a directory joined with a plain name is that name. |
| `Paths.KeyOfGlobMatch` | server/preprocess.py:35 | The stem of a file the glob picks is its name without `.svg`, so it starts with the glob's prefix. |
| `Paths.GlobKeysInjective` | server/preprocess.py:35-36 | Two names picked by the same glob with the same stem are the same name. |
| `Preprocess.ScanBodyIdsFinds` | server/preprocess.py:28-33 | `skin` is `"Head"` iff some node has id `Head`, else `None`. The accessory list holds exactly the accessory ids that occur, and only those three ids. |
| `Preprocess.AccessoriesAreFilter` | server/preprocess.py:32-33 | The accessory list is a filter in iteration order, duplicates kept: each node contributes its id iff that id is `Tie`, `TieKnot` or `Bowtie`. |
| `Preprocess.ScanBodyIdsAppend` | server/preprocess.py:28-33 | Scanning two stretches in turn: a later `Head` finding wins and the accessory lists are concatenated. |
| `Preprocess.ScanHairIdsFinds` | server/preprocess.py:52-57 | `hair` and `accessory` hold their id iff some node carries it, else `None`. |
| `Preprocess.InjectedVisits` | server/preprocess.py:24-26 | After injection, iteration visits the root, then the comment, then the document's previous nodes in their order. |
| `Preprocess.InjectedCommentYieldsNoSlot` | server/preprocess.py:24-33 | Scanning the document with the comment injected records the same ids as scanning the document as parsed. |
| `Preprocess.CommentAllowedOfAppend` | server/preprocess.py:24-25 | With a lead free of dashes and of characters XML does not admit, lxml accepts the comment iff the file name has no such character (a control character other than tab, line feed and carriage return, or U+FFFE/U+FFFF) and no `--`. This holds for a non-empty name that does not end in `-`; every picked name ends in `.svg`. |
| `Preprocess.IndexFileFails` | server/preprocess.py:17-26 | A picked file fails iff it does not parse, or its name holds a character XML does not admit or a `--`, which makes `ET.Comment` raise. The error names the joined path. |
| `Preprocess.ControlCharacterNameRejected` | server/preprocess.py:15-26 | `Body\x01.svg` is picked by the glob and parses, yet its file fails with the comment error, because U+0001 is not an XML character. |
| `Preprocess.IndexFileRecord` | server/preprocess.py:20-36 | A stored record keeps the tree as parsed, before the comment, and records the ids of that tree. Its key is the name without `.svg` and starts with the role's prefix. |
| `Preprocess.StoreSucceeds` | server/preprocess.py:15-36 | The storing loop succeeds iff no picked file's outcome is an error. Otherwise its error is that of the first failing file, and every earlier file succeeded. |
| `Preprocess.StoreLastWins` | server/preprocess.py:35-36 | Assigning into the cache in order leaves each key holding the record of the last file that produced it. |
| `Preprocess.StoreKeeps` | server/preprocess.py:35-36 | A key present before the loop, and produced by none of its files, keeps its earlier record. |
| `Preprocess.StoreOnlyStored` | server/preprocess.py:35-36 | After the loop, every key was either present before it or produced by one of its files. |
| `Preprocess.StorePrefixKeyed` | server/preprocess.py:35-60 | If every key so far starts with its record's role prefix, and so does every key the loop stores, this still holds afterwards. |
| `Preprocess.IndexFilesSucceeds` | server/preprocess.py:15-36 | A directory pass succeeds iff every picked file succeeds. Otherwise it fails with the error of the first failing picked file. |
| `Preprocess.IndexFilesLastWins` | server/preprocess.py:35-36 | The last picked file with a given key is the one stored under it. |
| `Preprocess.IndexFilesKeeps` | server/preprocess.py:39-60 | A pass keeps every earlier entry whose key none of its picked files produces. |
| `Preprocess.IndexFilesOnlyPicked` | server/preprocess.py:15-16 | A pass adds no key but the stems of the files its glob picks. |
| `Preprocess.PreprocessSucceeds` | server/preprocess.py:11-60 | Preprocessing succeeds iff every picked body file and every picked hair file succeeds. |
| `Preprocess.PreprocessKeysByRole` | server/preprocess.py:15-60 | Every key comes from a picked file. Body keys start with `Body` and hold body records; hair keys start with `Hair` and hold hair records. |
| `Preprocess.PreprocessBodyLastWins` | server/preprocess.py:35-60 | The last body file with a key is what is stored under it: the hair pass never overwrites a body entry. |
| `Preprocess.PreprocessHairLastWins` | server/preprocess.py:59-60 | The last hair file with a key is what is stored under it. |
| `Preprocess.PreprocessStoresEveryBody` | server/preprocess.py:15-36 | With distinct names in a listing, every picked body file's record is stored under its stem. |
| `ColorPicker.UpdateRecent` | client/body-svg-generator/src/ColorPicker.tsx:78-79 | A colour already listed leaves the list unchanged. Otherwise the colour becomes entry 0, followed by the previous list's first ≤4 entries in order. A list of at most 5 stays at most 5, and the colour is always listed afterwards. |
| `ColorPicker.UpdateRecentContents` | client/body-svg-generator/src/ColorPicker.tsx:79 | The update adds only the chosen colour. While the list has room it evicts nothing; from a full list it can evict only the last entry. |
| `ColorPicker.UpdateRecentKeepsDistinct` | client/body-svg-generator/src/ColorPicker.tsx:78-79 | A duplicate-free recent list stays duplicate-free. |
| `ColorPicker.ReplayInvariant` | client/body-svg-generator/src/ColorPicker.tsx:13-79 | From the initial empty list, any sequence of set colours yields a list of at most 5 distinct colours, all of them set colours, including the most recent one. |
| `ColorPicker.PartElementId` | client/body-svg-generator/src/ColorPicker.tsx:85-103 | `Lapels` paints element `Lapel`; every other part name, `Suit` and `Shirt` included, paints the element of the same name. |
| `ColorPicker.PartElementIdCollisions` | client/body-svg-generator/src/ColorPicker.tsx:85-103 | Two part names paint the same element iff they are equal or are `Lapel` and `Lapels`. The three offered parts paint three different elements. |
| `ColorPicker.SetColorMatchesPreview` | client/body-svg-generator/src/ColorPicker.tsx:24-103 | Committing a colour paints the same element its preview painted, for every part name. Only names other than the three offered parts are written directly. |
| `ColorPicker.AccessoryDisplay` | client/body-svg-generator/src/ColorPicker.tsx:15-22 | Only the `Tie` and `Bowtie` elements the document holds are styled. Each is shown iff it is the chosen accessory. |
| `ColorPicker.AtMostOneAccessoryShown` | client/body-svg-generator/src/ColorPicker.tsx:19-21 | Tie and Bowtie are never shown together. With both present and one of them chosen, exactly one is shown. |

## Left out

- HTTP layer: the Flask route, JSON request parsing, the `#000000` default and the response headers (`server/app.py:107-119`). `server/run_server.py` and `server/flask_server.py` are not part of this model; the latter depends on `headshot_generator`, which is also not part of this model.
- File I/O:
  - pickling the cache to `svg_cache.pkl` and loading it back (`server/app.py:50-61`, `server/preprocess.py:62-64`);
  - the cache the server uses. `server/app.py:56-61` builds it only when `svg_cache.pkl` is absent, and otherwise trusts whatever the file holds without any check. `server/preprocess.py:63-64` writes a file of that name with the other record shape: `skin` is the string `"Head"` or `None`, there is an `accessories` list and no `accessory` key, and the keys come from the glob. Served from such a file, `body_elements['skin'].attrib` (`server/app.py:82`) raises `AttributeError` and `body_elements['accessory']` (`server/app.py:83`) raises `KeyError`. The model's `Generate` takes any `Cache`, but its success lemmas assume one built by `BuildCache`;
  - reading the palette from JSON (`server/app.py:63-65`), so the palette is a parameter;
  - the `os.chdir` at import (`server/preprocess.py:7-8`).
- Node kinds beyond elements and comments: processing instructions, entity references, and element text and tails are outside the tree.
  - `server/app.py` parses with `xml.etree.ElementTree`, whose default parser drops comments and processing instructions. So its documents hold elements only.
  - `server/preprocess.py` parses with lxml, which keeps processing instructions and entity references inside the root. Its `root.iter()` loops (lines 28 and 52) visit them too.
  - lxml gives a processing instruction an `attrib` of pseudo-attributes parsed from its text. A `<?x id="Head"?>` inside a body root would therefore set `skin` at lines 29-31. The model does not represent this.
  - Entity references carry no attributes, so they would yield no slot.
- XML parsing and serialisation: `ET.parse`, `ET.tostring` and the UTF-8 decoding are not modelled.
  - Documents arrive as trees.
  - A document that fails to parse is a missing path in the cache build, or `None` in a listing.
  - The composed headshot is returned as a tree, not as text.
  - The preprocessing record keeps the tree where the source keeps its serialisation.
- Randomness: `random.choice` and `random.randint` become the `Draw` parameter. Its ranges are a precondition. An empty palette, where `random.choice` raises, is the `EmptyPalette` error.
- In-place mutation of cached trees: the source writes fills into the cached documents. Appending their children to the combined root shares them and leaves the cached roots intact.
  - The model computes each request from the cached tree instead.
  - Every write is a `fill` on a slot, and each request overwrites the fill of every present slot of the layers it draws. So, for requests served one after another, earlier writes never reach a later output.
- Concurrency: Flask's `app.run` (`server/app.py:118-119`) serves requests on threads. Two overlapping requests that draw the same layer can interleave their `fill` writes on the shared cached elements, so one response may carry the other's colours. The model treats each request as running alone.
- A slot at the root itself (position 0) is filled on the root, which the merge discards. `Composer.GenerateColoursBody` and `Composer.GenerateColoursHair` therefore only speak of positions from 1 on.
- Glob order: the listing is any sequence of names. The last-wins lemmas hold for every order, so the model does not fix the order `glob.glob` returns.
- React and DOM work in the colour picker: state hooks, `getElementById`, style writes, the download in `handleSave` and the JSX. The three state effects that paint `Suit`, `Lapel` and `Shirt` appear only as `TargetElementId`.
- Build configuration (`config-overrides.js`).
- File names holding bytes that are not valid UTF-8: Python decodes them to lone surrogates, which `ET.Comment` also rejects. A Dafny `char` is a Unicode scalar value and cannot hold a lone surrogate, so such names are outside the model.
