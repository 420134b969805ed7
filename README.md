# gallerifrey: the category graph and the navigation arithmetic

gallerifrey builds a static photo gallery. Every image belongs to one or
more categories:

- each category is a file in a category directory that lists image
  names, one per line;
- an older format holds a single file with one `image,cat,cat,...` line
  per image.

The program reads the categories into two tables that are inverse to each
other:

- `imagesByCategory`: category → images;
- `categoriesByImage`: image → categories.

Two synthetic categories are added:

- `all`: holds every image;
- `uncategorized`: holds every image that is in no other category.

Every set is then frozen into a sorted list. The program writes the tables
back, safely, with a temporary file, a backup and a rename. Index pages
split each category into pages of 60 images and link them in a circle.
Each image page links to the image's neighbours in every category it
belongs to.

This Dafny project models that core:

- the two readers (`readCategories`, `readCategoriesOld`);
- the two writers (`writeCategories`, `writeCategoriesOld`);
- `chunks` and the index-page arithmetic of `setupIndexPages`;
- the neighbour computation of `createImagePages` and the link sort of
  `generateImagePage`;
- the name helpers, `fileHasExt` and the `getImageFiles` filter;
- the padding arithmetic of `generateTable`;
- the maintenance helpers `keyDiff`, `valsMatch` and `convertCategories`.

A directory is a map from file name to file contents. Python 2 strings are
byte strings; a `char` stands for one byte.

The code that changes things step by step is modelled as methods with
loops. Each method is proved equal to a specification function:

- the readers' dictionaries, updated in place (`ReadCategoryFile`,
  `InvertCategories`, `DeriveUncategorized`, `Freeze`);
- the publish sequence (`Publish`, `WriteCategories`);
- the page and link loops (`SetupIndexPages`, `CreateImagePages`).

The lemmas prove what the program promises about those functions.

Modules:

| module | models |
|---|---|
| `Text` | `str.strip`, line reading, `','.join` and `split(',')`, `str(n)` |
| `StringOrder` | Python's string order, `list.sort()`, and the sorted list of a set |
| `Names` | `os.path.splitext`, `fileHasExt`, the page and thumbnail names, `getImageFiles` |
| `Pagination` | `chunks`, the padding of `generateTable`, `setupIndexPages`, `setupAllIndexPages` |
| `CategoryGraph` | the two tables, the `uncategorized` pass, freezing sets into sorted lists |
| `CategoryReader` | `readCategories` |
| `CategoryStore` | `writeCategories` and its tmp / .bak / rename publish |
| `ImagePages` | `createImagePages` and the link sort of `generateImagePage` |
| `LegacyReader` | `readCategoriesOld` |
| `LegacyWriter` | `writeCategoriesOld` |
| `Maintenance` | `keyDiff`, `valsMatch` |
| `Conversion` | `convertCategories` |

## Model

| member | source | states |
|---|---|---|
| Text.Strip | gallerifrey.py:269 | the result of `strip()` has no leading or trailing whitespace (Python 2's six whitespace characters) |
| Text.StripStripped | gallerifrey.py:269 | stripping a name that is already stripped leaves it unchanged |
| Text.StripDropsNewline | gallerifrey.py:268-269 | the `\n` ending a line read from a file never reaches the stored name |
| Text.StripWrittenName | gallerifrey.py:269 | a stripped name written with a trailing `\n` reads back as itself |
| Text.StripKeepsOut | gallerifrey.py:269 | stripping never adds a character |
| Text.Lines | gallerifrey.py:268 | reading a file line by line: the lines concatenate to the contents, and every line except possibly the last ends in its only `\n` |
| Text.LinesOfLinesText | gallerifrey.py:383-384 | a file written as newline-terminated names is read back line by line as exactly those lines |
| Text.LinesCons | gallerifrey.py:268 | the first line of `x\n...` is `x\n`, and reading goes on after it |
| Text.Split | gallerifrey.py:317 | `split(',')` gives at least one piece, and no piece contains the separator |
| Text.JoinSplit | gallerifrey.py:317 | joining the pieces of a split with the separator gives back the string |
| Text.SplitJoin | gallerifrey.py:406 | splitting a joined row whose fields hold no separator gives back the fields |
| Text.JoinStripped | gallerifrey.py:406 | a row of stripped fields joined with `,` is stripped |
| Text.JoinExcludes | gallerifrey.py:406 | joining adds no character other than the separator |
| Text.LinesTextSnoc | gallerifrey.py:402-407 | writing one more name appends exactly that name and `\n` |
| Text.NatToString | gallerifrey.py:50 | `str(n)`: non-empty decimal digits, one digit exactly when n < 10, no leading zero |
| Text.NatToStringInjective | gallerifrey.py:50 | different page numbers give different strings |
| Text.FirstLineLength | gallerifrey.py:268 | the first line ends at the first `\n`, or runs to the end |
| StringOrder.LessIrreflexive | gallerifrey.py:300 | no string sorts before itself |
| StringOrder.LessAsymmetric | gallerifrey.py:300 | two strings never sort before each other |
| StringOrder.LessTransitive | gallerifrey.py:300 | the string order is transitive |
| StringOrder.LessTotal | gallerifrey.py:300 | any two different strings are ordered |
| StringOrder.Insert | gallerifrey.py:300 | inserting into a sorted list keeps it sorted and adds exactly the one element |
| StringOrder.Sort | gallerifrey.py:299-300 | `list.sort()`: the result is sorted and a permutation of the input |
| StringOrder.ElementsSort | gallerifrey.py:299-300 | sorting keeps the same elements |
| StringOrder.SortOfSorted | gallerifrey.py:300 | sorting a sorted list leaves it unchanged |
| StringOrder.SortedPermutationUnique | gallerifrey.py:300 | two sorted permutations of the same list are equal |
| StringOrder.SortedDistinctIsStrict | gallerifrey.py:299-300 | a sorted list without duplicates is strictly increasing |
| StringOrder.StrictIsSortedDistinct | gallerifrey.py:299-300 | a strictly increasing list is sorted and has no duplicates |
| StringOrder.SortOfDistinctIsListing | gallerifrey.py:299-300 | sorting the list of a set gives the strictly increasing listing of that set |
| StringOrder.Listing | gallerifrey.py:299-300 | every set has a strictly increasing listing of exactly its members |
| StringOrder.ListingUnique | gallerifrey.py:299-300 | that listing is unique, so every frozen list is determined by its set |
| StringOrder.ListingEmptyIff | gallerifrey.py:299-300 | a listing is empty exactly when its set is |
| Names.SplitExt | gallerifrey.py:40 | `os.path.splitext`: the two parts concatenate to the name, and the extension is empty or a proper extension |
| Names.ExtensionAfterLastDot | gallerifrey.py:40 | the part from the last dot of the last path component is an extension |
| Names.SplitExtOf | gallerifrey.py:39-41 | a plain stem with an extension splits into exactly that stem and that extension |
| Names.FileHasExt | gallerifrey.py:39-41 | `fileHasExt` holds only for an empty or a proper extension, and only one that ends the name |
| Names.FileHasExtOf | gallerifrey.py:39-41 | a plain stem with an extension has that extension and no other |
| Names.ArtifactHasExt | gallerifrey.py:248-249 | a plain name with `.bak` or `.tmp` added is caught by the matching `fileHasExt` filter |
| Names.DotNameBackupHasNoExt | gallerifrey.py:248 | `....bak` has no extension under `splitext`, so the `.bak` filter lets it through |
| Names.ImagePageName | gallerifrey.py:43-47 | `getImagePageName`: the page name ends in `.html`, and what comes before it is the image's stem |
| Names.ImagePageNameSame | gallerifrey.py:43-47 | two images share a page name exactly when their stems are equal |
| Names.ImagePageNameCollision | gallerifrey.py:45-46 | two images that differ only in extension get the same page name |
| Names.IndexPageName | gallerifrey.py:49-50 | `getIndexPageName`: the name starts with `index-`, ends in `.html`, and is longer than the category by more than 12 |
| Names.IndexPageNameInjective | gallerifrey.py:49-50 | `index-<c>-<n>.html` determines both the category and the page number |
| Names.KeyParts | gallerifrey.py:50 | the last `-` of `<c>-<n>` separates the category from the number |
| Names.IndexPageNameFromKey | gallerifrey.py:50 | an index page name is `index-`, the category, `-`, the number and `.html` |
| Names.PrettyPageName | gallerifrey.py:52-54 | the pretty name is a prefix of the page name |
| Names.PrettyIndexPageName | gallerifrey.py:52-54 | the pretty name of an index page is `index-<c>-<n>` when the category has no `/` |
| Names.ThumbnailName | gallerifrey.py:56-57 | `getThumbnailName`: the thumbnail name ends in the image name, and is absolute exactly when the image name is |
| Names.ThumbnailNameInjective | gallerifrey.py:56-57 | different images have different thumbnails |
| Names.LowerIdempotent | gallerifrey.py:65 | `str.lower()` applied twice gives the same as once |
| Names.LowerUnchanged | gallerifrey.py:65 | `str.lower()` leaves a string unchanged exactly when it has no ASCII upper-case letter |
| Names.IsImageFile | gallerifrey.py:63-66 | a name passes the image filter only if it has a proper extension of 4 or 5 characters |
| Names.ImageFileAnyCase | gallerifrey.py:63-66 | a plain stem with an extension passes the filter exactly when the lower-cased extension is `.png`, `.jpg`, `.gif` or `.tiff`, so `a.PNG` passes and `a.jpeg` does not |
| Names.ImageFiles | gallerifrey.py:59-68 | `getImageFiles` on a listing: the result is sorted and holds each image file as often as the listing does, and nothing else |
| Pagination.NumChunksStep | gallerifrey.py:105 | the chunk count is 0 for an empty list, 1 up to n, and one more per n further items |
| Pagination.ChunksCount | gallerifrey.py:103-105 | `chunks` (`Chunks`) gives ceil(len/n) chunks: enough to hold the list, and none to spare |
| Pagination.ChunkAt | gallerifrey.py:105 | chunk i is the slice `l[i*n : i*n+n]`, clipped to the list |
| Pagination.ChunksFlatten | gallerifrey.py:103-105 | concatenating the chunks gives back the list |
| Pagination.ChunkSizes | gallerifrey.py:103-105 | every chunk is non-empty and at most n long, and every chunk but the last is exactly n long |
| Pagination.ChunksOfMultiple | gallerifrey.py:103-105 | a list of k·n items gives exactly k full chunks |
| Pagination.PadCount | gallerifrey.py:113-117 | the padding of `generateTable` is less than one row, and none exactly when the cells fill whole rows |
| Pagination.PadCountFillsRow | gallerifrey.py:113-117 | the padding count is the least number of cells that completes the last row, and is below the row width |
| Pagination.TableRowsFull | gallerifrey.py:113-118 | after padding, every table row is exactly `numColumns` wide, the rows number ceil(cells/columns), and they hold the cells and then the padding |
| Pagination.NextIndex | gallerifrey.py:195 | `(i+1) % N` is below N: the following page, or page 0 after the last one |
| Pagination.PrevIndex | gallerifrey.py:196 | `(i-1) % N` is below N: the preceding page, or the last page before page 0 (Python's `%` of a negative number) |
| Pagination.NextPrevCircular | gallerifrey.py:195-196 | next and previous page indices stay below N and undo each other, wrap from the last page to the first and back, and stay on a lone page |
| Pagination.IndexPagesCover | gallerifrey.py:188-193 | `IndexPages`, the pages `setupIndexPages` builds: an empty category gets no page; the pages show the images in order, 1 to 60 to a page, all but the last full |
| Pagination.IndexPageNamesDistinct | gallerifrey.py:193-194 | the pages of one category have distinct names |
| Pagination.IndexPageLinks | gallerifrey.py:193-196 | each page's next and previous links name the following and preceding page, wrapping at both ends; a lone page links to itself |
| Pagination.IndexPagesOfCategoriesDistinct | gallerifrey.py:194 | pages of different categories never share a name |
| Pagination.FirstPageLinks | gallerifrey.py:191-197 | the link to `index-<c>-0.html` from the category table (line 133) and the image pages (line 442) reaches a page exactly when the category is not empty; for an empty category no index page of any category has that name |
| Pagination.SetupIndexPages | gallerifrey.py:169-197 | the loop creates exactly the index pages of the category |
| Pagination.SetupAllIndexPages | gallerifrey.py:164-167 | every category gets exactly its own index pages |
| CategoryGraph.AdjustEffect | gallerifrey.py:281-291 | `Adjust`, the pass on one image, changes only `uncategorized`; an image ends in it exactly when it had one category, or had `uncategorized` and at most one other |
| CategoryGraph.AdjustIdempotent | gallerifrey.py:281-291 | running `Adjust` a second time changes nothing |
| CategoryGraph.DerivePreservesSymmetry | gallerifrey.py:279-291 | `Derive`, the pass on both tables, keeps the two tables inverse to each other |
| CategoryGraph.PartialEnds | gallerifrey.py:281-291 | before the loop nothing is adjusted, and after it every image is |
| CategoryGraph.PartialStep | gallerifrey.py:282-291 | one iteration adjusts one image, and its `uncategorized` membership in both tables together |
| CategoryGraph.DeriveUncategorized | gallerifrey.py:279-291 | the loop over `categoriesByImage` gives both tables after the pass, whatever the dictionary order |
| CategoryGraph.ListOf | gallerifrey.py:299 | `list(s)` has no duplicates and exactly the members of `s` |
| CategoryGraph.Freeze | gallerifrey.py:296-305 | every set becomes its strictly increasing listing, under the same keys |
| CategoryGraph.FrozenUnique | gallerifrey.py:296-305 | the frozen tables are determined by the sets |
| CategoryGraph.FrozenSymmetric | gallerifrey.py:296-305 | freezing inverse tables gives inverse lists |
| CategoryReader.ReadCategoryFile | gallerifrey.py:266-277 | reading one file gives the set of its stripped lines, and adds the file's category to each of those names |
| CategoryReader.SeedTables | gallerifrey.py:252-258 | the seeding: `all` holds the images, `uncategorized` is empty, and every image starts with `all` |
| CategoryReader.GatherCategories | gallerifrey.py:246-277 | the file loop gives the gathered tables of the category files, whatever the listing order |
| CategoryReader.ReadCategories | gallerifrey.py:241-306 | `readCategories` returns the frozen `CategoryTables` of the category directory; the lemmas below state what those tables hold |
| CategoryReader.CategoryFileOf | gallerifrey.py:261-270 | a file that is not `.bak`/`.tmp` is read unless it is `all` or `uncategorized`, and its category is its stripped lines |
| CategoryReader.GatheredSymmetric | gallerifrey.py:252-277 | after the file loop the two tables are inverse to each other |
| CategoryReader.ReadCategoriesSymmetric | gallerifrey.py:241-306 | in the returned lists, `i` is under `c` exactly when `c` is under `i` |
| CategoryReader.TablesImagesAt | gallerifrey.py:255-291 | a name is in `categoriesByImage` exactly when it is an image or some file lists it, and its categories are the adjusted set of `all` (images only) and the listing files |
| CategoryReader.GatheredImagesAt | gallerifrey.py:255-276 | before the pass, a name's categories are `all` for an image plus the files listing it |
| CategoryReader.AllCategory | gallerifrey.py:253-256 | `all` holds exactly the images, every image is a key, and a name has `all` exactly when it is an image |
| CategoryReader.AllAmongFinal | gallerifrey.py:274-276 | names seen only in category files do not get `all` |
| CategoryReader.TablesCategories | gallerifrey.py:253-277 | the categories are `all`, `uncategorized` and the files, and each file's category is the file's names |
| CategoryReader.TablesNames | gallerifrey.py:255-276 | the names are the images and every name a file lists |
| CategoryReader.TablesCategoriesOf | gallerifrey.py:270-276 | apart from `uncategorized`, a name's categories are `all` for an image plus the files that list it |
| CategoryReader.SkippedFileIgnored | gallerifrey.py:248-249 | adding, changing or removing a `.bak`, `.tmp`, `all` or `uncategorized` file changes nothing that is read |
| CategoryReader.CategoryFilesSame | gallerifrey.py:261-277 | two directories with the same category files and the same names in each read the same |
| CategoryReader.UncategorizedRule | gallerifrey.py:279-291 | an image is uncategorized exactly when no file lists it, and is then in `all` and `uncategorized` only; a stale name is uncategorized exactly when one file lists it |
| CategoryReader.FinalUncategorized | gallerifrey.py:281-291 | the same rule on the final categories of one name |
| CategoryReader.RemovalBranchDead | gallerifrey.py:287-291 | the removal branch of the pass never fires in `readCategories` |
| CategoryReader.UncategorizedAbsent | gallerifrey.py:264-265 | before the pass no name has `uncategorized`, because that file is skipped |
| CategoryReader.BlankLineListsEmptyName | gallerifrey.py:268-270 | a blank line in a category file adds the empty name |
| CategoryStore.PublishFilesDistinct | gallerifrey.py:379-381 | the live, backup and temporary files of one category are three different files |
| CategoryStore.Publish | gallerifrey.py:378-392 | after the publish the live file holds the new text, the backup holds the old text if there was a live file, no temporary file remains, and nothing else changes |
| CategoryStore.WriteCategories | gallerifrey.py:371-392 | every category's file holds its sorted names one per line, every category that had a file has a backup of the old one, no temporary file is left, and nothing else changes |
| CategoryStore.WrittenNothing | gallerifrey.py:374 | before the loop the directory is unchanged |
| CategoryStore.WrittenStep | gallerifrey.py:374-392 | publishing one more category extends the written state by that category, whatever the order |
| CategoryStore.ArtifactNamesDistinct | gallerifrey.py:380-381 | backup and temporary names never coincide, and determine their category |
| CategoryStore.NoArtifactClashSubset | gallerifrey.py:380-381 | a subset of non-clashing names does not clash |
| CategoryStore.TemporariesAdd | gallerifrey.py:381 | one more category adds one temporary name |
| CategoryStore.BackupsAdd | gallerifrey.py:380 | one more category adds a backup name exactly when it had a live file |
| CategoryStore.MembersAreClean | gallerifrey.py:269 | every name read from a file is stripped and has no newline |
| CategoryStore.StrippedTerminated | gallerifrey.py:383-384 | stripping newline-terminated stripped names gives those names |
| CategoryStore.MembersOfLinesText | gallerifrey.py:383-384 | a written file reads back as the set of names written |
| CategoryStore.CategoryFileRoundTrip | gallerifrey.py:377-384 | rewriting a category file with its sorted names reads back the same names |
| CategoryStore.ReservedArePlain | gallerifrey.py:264 | `all` and `uncategorized` are plain names and not `.bak`/`.tmp` files |
| CategoryStore.ReservedNotArtifact | gallerifrey.py:264 | the same for any reserved name |
| CategoryStore.ArtifactEnding | gallerifrey.py:248-249 | a `.bak`/`.tmp` file name ends in `k` or `p` |
| CategoryStore.BackupsAreArtifacts | gallerifrey.py:248-249 | the backup and temporary files of a plain name are skipped by the reader |
| CategoryStore.NotAnArtifactOf | gallerifrey.py:380-381 | a name that is not `.bak`/`.tmp` is no category's backup or temporary file |
| CategoryStore.PlainNamesDoNotClash | gallerifrey.py:380-381 | plain names that are not `.bak`/`.tmp` files never clash with each other's backups |
| CategoryStore.ReadCategoryNames | gallerifrey.py:253-277 | the categories read are `all`, `uncategorized` and the declared files |
| CategoryStore.ReadCategoriesDoNotClash | gallerifrey.py:246-277 | the categories read from a directory of plain names never clash |
| CategoryStore.WrittenDeclaresSame | gallerifrey.py:371-392 | writing back what was read declares the same category files |
| CategoryStore.WrittenFilesSame | gallerifrey.py:371-392 | writing back what was read leaves the same names in every category file |
| CategoryStore.WriteReadRoundTrip | gallerifrey.py:371-392 | for a directory of plain file names (no `/`, not only dots), reading the categories, writing them and reading again gives the same tables |
| ImagePages.IndexOf | gallerifrey.py:425 | `list.index`: the first position holding the name |
| ImagePages.IndexOfDistinct | gallerifrey.py:425 | in a list without duplicates, `index` finds the element's own position |
| ImagePages.LinkNeighbours | gallerifrey.py:425-429 | `LinkAt`, one row of an image page, names its category and two neighbours from that category |
| ImagePages.LinkSingleton | gallerifrey.py:426-428 | an image alone in a category is its own previous and next image |
| ImagePages.LinkWraps | gallerifrey.py:427-428 | the last image's next is the first, and the first image's previous is the last |
| ImagePages.LinkInverse | gallerifrey.py:427-428 | the next image's previous is the image, and the previous image's next is the image |
| ImagePages.LinkSelf | gallerifrey.py:427-428 | an image is its own neighbour exactly when it is alone in the category |
| ImagePages.ImageLinks | gallerifrey.py:419-429 | the links succeed exactly when every category exists and lists the image; otherwise the error names the first failing category |
| ImagePages.LinkLessAsymmetric | gallerifrey.py:439 | the tuple order is irreflexive and asymmetric |
| ImagePages.LinkLessTransitive | gallerifrey.py:439 | the tuple order is transitive |
| ImagePages.LinkLessTotal | gallerifrey.py:439 | any two different links are ordered |
| ImagePages.InsertLink | gallerifrey.py:439 | inserting keeps the links sorted and adds exactly the one link |
| ImagePages.SortLinks | gallerifrey.py:439 | `links.sort()`: the result is sorted and a permutation of the links |
| ImagePages.SortLinksOfStrict | gallerifrey.py:439 | sorting strictly increasing links changes nothing |
| ImagePages.LinksOfSortedCategories | gallerifrey.py:439 | links built over strictly sorted categories are already in order, so the sort keeps them in category order |
| ImagePages.CreateImagePages | gallerifrey.py:416-434 | all pages are built exactly when every image can be navigated in each of its categories; every image's page name `getImagePageName(image)` is written, and each page holds the sorted links of one image with that page name |
| ImagePages.DistinctPageNames | gallerifrey.py:416-434 | when no two images share a page name, each image's page holds that image's own sorted links |
| ImagePages.ReaderPagesNavigable | gallerifrey.py:420-429 | on what `readCategories` returns, `index` never fails, the links come in category order, and each neighbour leads back to the image |
| LegacyReader.FileRows | gallerifrey.py:314-320 | a missing category file gives no rows, and otherwise one row per line |
| LegacyReader.LastRowOf | gallerifrey.py:333-337 | the last row about a name, the one whose categories stay |
| LegacyReader.OverriddenAt | gallerifrey.py:333-337 | after the rows, a name's categories are those of its last row, or the seeded ones when it has no row |
| LegacyReader.SeedImages | gallerifrey.py:328-329 | every image starts with `all` |
| LegacyReader.ApplyRows | gallerifrey.py:333-337 | each row replaces its image's categories with the row's categories and `all` |
| LegacyReader.AddImage | gallerifrey.py:339-343 | one image is added to each of its categories, creating those that are missing |
| LegacyReader.InvertCategories | gallerifrey.py:338-343 | the loop builds the inverse of `categoriesByImage` over the seed, whatever the dictionary order |
| LegacyReader.InvertedAt | gallerifrey.py:338-343 | a category of the inverse is a seeded one or one some image has, and holds the seeded images plus those images |
| LegacyReader.InvertedStep | gallerifrey.py:339-343 | adding one image to the inverse adds it to each of its categories |
| LegacyReader.InvertedNothing | gallerifrey.py:338 | with no images the inverse is the seed |
| LegacyReader.ReadCategoriesOld | gallerifrey.py:309-369 | `readCategoriesOld` returns the frozen `LegacyTables` of the album; the lemmas below state what those tables hold |
| LegacyReader.InvertedUncategorized | gallerifrey.py:331-343 | `uncategorized` is a category, and holds exactly the images that carry it |
| LegacyReader.LegacyImagesAt | gallerifrey.py:327-337 | a name is an image or has a row, its categories are those of its last row (or `all` alone), and `all` is always among them |
| LegacyReader.LegacyGatheredSymmetric | gallerifrey.py:324-343 | before the pass the legacy tables are inverse to each other |
| LegacyReader.ReadCategoriesOldSymmetric | gallerifrey.py:309-369 | in the returned lists, `i` is under `c` exactly when `c` is under `i` |
| LegacyReader.LegacyAllCategory | gallerifrey.py:327-343 | unlike `readCategories`, every name, stale ones included, has `all`, and `all` holds every name |
| LegacyReader.LegacyNames | gallerifrey.py:328-337 | the names are the images and the names of the rows |
| LegacyReader.LegacyAllHoldsAll | gallerifrey.py:336-343 | before the pass `all` holds every name |
| LegacyReader.LegacyUncategorizedRule | gallerifrey.py:345-357 | a name without a row ends in `all` and `uncategorized`; with a row, its other categories are the row's, and it is uncategorized exactly when the row names nothing but `all` and `uncategorized` |
| LegacyReader.AdjustWithAll | gallerifrey.py:347-357 | with `all` present, the pass keeps every other category and leaves `uncategorized` exactly when nothing else is there |
| LegacyReader.CleanRowText | gallerifrey.py:317 | a row of clean names joined with `,` is one stripped line, and splits back into the row |
| LegacyReader.ReadWrittenRows | gallerifrey.py:317 | a file of joined clean rows is read back as those rows |
| LegacyReader.ReadWrittenRowAt | gallerifrey.py:317 | the same for one row |
| LegacyReader.LegacyRemovalLive | gallerifrey.py:353-357 | unlike in `readCategories`, the removal branch fires: a row `x,uncategorized,c` leaves `x` in `all` and `c` only |
| LegacyReader.AdjustDropsUncategorized | gallerifrey.py:353-357 | `{all, uncategorized, c}` loses `uncategorized` in the pass |
| LegacyReader.SingleRow | gallerifrey.py:333-337 | a single row gives its image the row's categories and `all` |
| LegacyReader.OneRowFile | gallerifrey.py:317 | a one-line file of clean names is read as that one row |
| LegacyWriter.WriteCategoriesOld | gallerifrey.py:394-413 | the file holds one `image,cat,...` line per image, in image order and with sorted categories, and is published through tmp / .bak / rename |
| LegacyWriter.WriteRows | gallerifrey.py:402-407 | the loop writes the lines of the given images in that order |
| LegacyWriter.WrittenRowsSnoc | gallerifrey.py:402-407 | one more image appends exactly its line |
| LegacyWriter.CleanRowOf | gallerifrey.py:403-406 | the row of a clean table entry is clean |
| LegacyWriter.LegacyWriteRead | gallerifrey.py:394-413 | reading back the written file gives every written image its categories plus `all`, and every other image `all` alone |
| LegacyWriter.WrittenRowsRead | gallerifrey.py:399-407 | the written file reads back as the rows, in image order |
| LegacyWriter.WrittenImages | gallerifrey.py:333-337 | rows of distinct images give each image the categories of its row plus `all` |
| LegacyWriter.WrittenNameAt | gallerifrey.py:333-337 | the same for one name |
| LegacyWriter.DeriveInverted | gallerifrey.py:338-357 | running the pass after inverting equals inverting the adjusted categories |
| LegacyWriter.AdjustedUncategorized | gallerifrey.py:345-357 | the images in `uncategorized` after the pass are those before it, plus the added ones, minus the removed ones |
| LegacyWriter.AdjustedOther | gallerifrey.py:345-357 | the pass changes no category other than `uncategorized` |
| LegacyWriter.LegacyTablesInverted | gallerifrey.py:338-357 | the legacy tables are the adjusted categories of every name and their inverse over the seed |
| LegacyWriter.AdjustAllIdempotent | gallerifrey.py:345-357 | running the pass over every name twice changes nothing |
| LegacyWriter.LegacyReadBack | gallerifrey.py:309-413 | for a table whose names are stripped and hold no `,` or newline, writing the frozen categories and reading them back gives every name the same categories before the pass |
| LegacyWriter.LegacyRoundTrip | gallerifrey.py:309-413 | reading the legacy file, writing it and reading it again gives the same tables |
| Maintenance.KeyDiffEmptyIff | gallerifrey.py:513-516 | `keyDiff(d1, d2)` is empty exactly when every key of `d1` is a key of `d2` |
| Maintenance.KeyDiffBothEmpty | gallerifrey.py:513-516 | both differences are empty exactly when the tables have the same keys |
| Maintenance.ValsMatch | gallerifrey.py:518-523 | `valsMatch` is `True` exactly when every key of the first table lists the same names in the second; `False` names such a key with other names; `KeyError` names a key the second lacks |
| Conversion.ReadStored | gallerifrey.py:241-306 | reading the stored categories of settled tables over the same images gives back those tables |
| Conversion.StoredImages | gallerifrey.py:255-291 | the same, for `categoriesByImage` |
| Conversion.StoredImageAt | gallerifrey.py:255-291 | the same, for one name |
| Conversion.SettledAdjust | gallerifrey.py:281-291 | the pass restores a settled image's categories from `all` and its stored ones |
| Conversion.StoredListing | gallerifrey.py:270-276 | the stored files that list a name are its categories other than the synthetic ones |
| Conversion.AdjustWithoutUncategorized | gallerifrey.py:281-291 | with `all` present, dropping `uncategorized` before the pass changes nothing after it |
| Conversion.SymmetricSameCategories | gallerifrey.py:338-343 | two pairs of inverse tables with the same image side and the same categories are equal |
| Conversion.LegacySettled | gallerifrey.py:324-357 | legacy tables about images only are settled: inverse, with `all` on every image and unchanged by another pass |
| Conversion.WrittenStored | gallerifrey.py:371-392 | writing the frozen categories into a fresh directory leaves exactly the stored categories there |
| Conversion.DeclaredAfterWriteAll | gallerifrey.py:371-392 | after that write, the declared files are exactly the categories other than `all` and `uncategorized` |
| Conversion.DeclaredAfterWrite | gallerifrey.py:371-392 | the same for one file name |
| Conversion.StoredContents | gallerifrey.py:383-384 | after that write, every stored category file reads back as the category's names |
| Conversion.CategoryFilesAre | gallerifrey.py:246-277 | a directory declaring exactly the stored categories, each holding its names, reads as the stored categories |
| Conversion.StoredFile | gallerifrey.py:383-384 | a sorted category of clean names reads back as itself |
| Conversion.ConvertRoundTrip | gallerifrey.py:529-535 | with a legacy file about images only, storable names and a fresh directory, reading back the converted categories gives the legacy tables |
| Conversion.StaleNameDetected | gallerifrey.py:537-539 | a legacy row about a name that is not an image gives the name `all`, which the new format cannot give it, so the name goes missing or changes |
| Conversion.DifferingName | gallerifrey.py:513-523 | a name missing from the second table, or listing other names there, fails `keyDiff` or `valsMatch` |
| Conversion.CleanComparisons | gallerifrey.py:537-543 | with a clean legacy file, both comparisons by image and both by category succeed |
| Conversion.ConvertCategories | gallerifrey.py:525-543 | a clean legacy file passes all four checks; a file with a row about a non-image fails a check by image; a `KeyError` ends the run before the checks by category |

## Left out

- Real I/O is not modelled: `os.listdir`, `open`, `shutil.copyfile` and `os.rename` are operations on an in-memory map from file name to contents. An I/O failure other than a missing file is not modelled either.
- The `os.path.isdir` filter of `readCategories` (gallerifrey.py:247) tests a name against the working directory, which is not a value of the model. The category directory holds files only.
- `createThumbnails` (gallerifrey.py:77-101) calls the PythonMagick library and uses floating-point arithmetic.
- `getHTMLFiles`, `cleanOldFiles` and `main` (gallerifrey.py:70-74, 480-505) only list, delete and copy files.
- The HTML text of the pages and tables is not modelled: `createIndexPage`, `generateNextPrev`, `generateNextPrevRow`, the page text of `generateImagePage`, and the cells of `generateCategoryTable` and `generateImageTable`. Only the padding and row arithmetic of `generateTable` is modelled.
- `print` output is left out.
- Python 2 dictionary and set iteration order is not modelled. Every loop over a dictionary or set picks an arbitrary next key, and its contract holds for every order.
- Pagination.Chunks: `chunks` with n ≤ 0 is not modelled. n = 0 raises in `range`, and every caller passes 60, 10 or 4.
- Pagination.IndexPagesCover: an empty category gets no index page (gallerifrey.py:191-193), although the category table links every category to `index-<c>-0.html` (gallerifrey.py:133) and every image page links to page 0 of its categories (gallerifrey.py:442). Pagination.FirstPageLinks states where that link leads.
- Names.SplitExt: models `os.path.splitext` on `/`-separated names only.
- ImagePages.CreateImagePages: the pages written before a failing image are not modelled. On failure the method returns the error and no pages.
- ImagePages.CreateImagePages: images that differ only in their extension write the same page (Names.ImagePageNameCollision). Which of them the page shows depends on dictionary order, so the contract only says it is one of them.
- ImagePages.ImageLinks: the error names the first failing category in the image's category order. The source's `KeyError` for a missing category and `ValueError` for a missing image become the `NavError` values `MissingCategory` and `ImageNotListed`.
- Maintenance.ValsMatch: it does not say which of `False` and `KeyError` is returned when keys of both kinds exist. That depends on dictionary order.
- CategoryStore.WriteCategories: requires that no category is named like another category's `.bak` or `.tmp` file. With such a clash the resulting directory depends on dictionary order.
- Conversion.ConvertCategories: requires the same of the legacy categories. Its agreement result assumes names that survive a write and a read unchanged (stripped, no newline, no `/`, not `.bak`/`.tmp`) and a category directory that declares no file yet.
- CategoryStore.WriteReadRoundTrip: holds for directories whose file names hold no `/` and are not made only of dots. The backup of a dots-only name has no extension under `splitext`, so the reader takes it for a category (Names.DotNameBackupHasNoExt).
- LegacyWriter.LegacyReadBack: holds for tables whose names are stripped and hold no `,` or newline, as LegacyWriter.LegacyRoundTrip.
- LegacyWriter.LegacyRoundTrip: holds for tables whose names are stripped and hold no `,` or newline. Other names do not survive `split(',')` and `strip()`.
- LegacyWriter.WriteCategoriesOld: the source sorts `(image, categories)` tuples. The model sorts the images, which gives the same order because images are unique keys.
- `getIndexPageName` formats any value. The model takes a category name and a natural page number, which is all the callers pass.
