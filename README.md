# The exporter of the literature scraper, in Dafny

This project models `data_handler.py`, the part of the literature scraper that
reads back cached search records and exports them. It covers three operations:

- **write_bib** turns one paper record into a BibTeX `@article` entry. The
  header carries the record's `bib_id`, or `None` when there is none. Then
  comes one `key = {value},` line per other bibliographic field, in the bib
  dict's order, and the entry ends with `}`, a newline and a blank line.
- **filter_data** turns a list of records into two parallel lists: flat
  metadata entries with fixed defaults ("N/A", 0 citations, a `None` query)
  and the BibTeX entries of the same records.
- **read_pickles** collects the records cached in a directory tree. It keeps
  only files whose name ends with ".pickle" and sets each record's "query" to
  the stem of the directory it was found in.

Python's data are modelled explicitly:

- A dict is the sequence of its `(key, value)` items in insertion order
  (`PyDicts`). `.get` finds the value stored under a key, and `d[k] = v`
  overwrites in place or appends a new key at the end.
- A record is a dict whose values are plain values or, under "bib", a nested
  dict of plain values (`DataHandler.Item`).
- `str()` of a value is `PyValues.Render`. Strings print as themselves, ints
  in decimal with a sign, booleans as `True`/`False`, `None` as `None`. Any
  other object without a `.get` method (a list, a float, ...) is given by the
  text `str()` produces for it.
- A "bib" that is present but not a dict makes `.get` raise `AttributeError`.
  Both write_bib and filter_data then fail; the model returns
  `Failure(AttributeError)` and does not exclude the input.
- `Path.name` and `Path.stem` follow Python 3.12's `pathlib` (`Paths`), on
  paths as `Path.walk` yields them: '/'-separated, with no trailing separator.
  The current directory "." has an empty name and an empty stem, so records
  directly under a walk rooted at "." are tagged with the empty string.

Each loop of the source is a `method` with the same loop. Its postcondition
ties the result to a specification function:

- `WriteBib` to `BibEntryOf`;
- `FilterData` to `Extract` and `BibEntryOf`, element by element;
- `ReadPickles` to `LoadAll`.

Lemmas then state what those functions guarantee. `LoadAll` follows the walk
directory by directory. It is also proved equal to an independent reading,
`LoadListing`: flatten the walk, keep the pickle files, tag each record.

The docstring of read_pickles says the "query" key is the *name* of the
directory. The code uses `dirpath.stem`, and the model follows the code. The
two differ when a directory name has a dot inside: records under
`pickle_cache/v2.0` are tagged `v2` (`Paths.StemDropsSuffix`), and records
under `pickle_cache/deep learning vs. ML` are tagged `deep learning vs`
(`Paths.StemCutsQuery`). `Paths.StemIsName` gives the exact condition under
which the two agree.

## Model

| member | source | states |
|---|---|---|
| DataHandler.WriteBib | data_handler.py:9-29 | The method's result is `BibEntryOf(paper)`: the header, one line per field other than "bib_id" in dict order, then the closing brace; it is AttributeError when "bib" is not a dict |
| DataHandler.BibEntryFrame | data_handler.py:23-28 | write_bib fails exactly when "bib" holds a non-dict. Otherwise the entry starts with "@article{" + str(bib_id) + ",\n" and ends with "}\n\n", and a missing bib_id prints as `None` |
| DataHandler.EmptyBibEntry | data_handler.py:23-28 | With no "bib", or an empty one, the entry is exactly "@article{None,\n}\n\n" |
| DataHandler.SmithEntry | data_handler.py:23-28 | A concrete record gives its exact entry: bib_id in the header, then title and author lines in dict order |
| DataHandler.SmithFieldLines | data_handler.py:25-27 | The field lines of that record: "bib_id" contributes nothing, the other two fields one line each, in order |
| DataHandler.FieldLinesAppend | data_handler.py:25-27 | The loop's text over two dicts laid end to end is the text of the first followed by that of the second |
| DataHandler.FieldLinesSingle | data_handler.py:26-27 | One item gives "  key = {str(value)},\n", or nothing when its key is "bib_id" |
| DataHandler.Fields | data_handler.py:25-26 | The items the loop writes never include "bib_id" |
| DataHandler.FieldLinesOfFields | data_handler.py:25-27 | The loop's text is exactly the lines of the non-"bib_id" items, in dict order |
| DataHandler.OneFieldPerKey | data_handler.py:25-26 | In a dict, the written items are exactly its items minus "bib_id": one fewer than the dict's size when it has a "bib_id", each exactly once |
| DataHandler.BibTextLength | data_handler.py:24-28 | Entry length = header (11 + width of str(bib_id)) + per field (key + str(value) + 9) + 3 |
| DataHandler.FieldLinesWidth | data_handler.py:25-27 | The field lines are as long as the sum of the per-field widths |
| DataHandler.BibOf | data_handler.py:23 | `paper.get("bib", {})` as `.get` sees it: a missing "bib" is the empty dict, a dict "bib" is used as stored, and any other "bib" is AttributeError |
| DataHandler.Extract | data_handler.py:83-92 | Fails exactly when "bib" is present and not a dict. Otherwise a present title is the stored one; a missing title, author, pub_year, venue, abstract or pub_url gives "N/A"; a missing num_citations gives 0; a present query is copied while a missing one is None |
| DataHandler.FilterData | data_handler.py:61-98 | Fails iff some paper's "bib" is not a dict. Otherwise both lists have one element per paper, in order: the i-th entry is `Extract(papers[i])` and the i-th bib entry is write_bib's output for papers[i] |
| DataHandler.ExtractWithoutBib | data_handler.py:84-88 | A paper without "bib" has "N/A" for title, authors, year, venue and abstract |
| DataHandler.ExtractDefaults | data_handler.py:89-91 | Missing "num_citations" gives 0, missing "pub_url" gives "N/A", missing "query" gives None |
| DataHandler.ExtractCopies | data_handler.py:83-92 | For a dict "bib": each present field is copied unchanged and authors is str() of the "author" value; a missing title, author, pub_year, venue or abstract gives "N/A" |
| DataHandler.ExtractFailsWithBibEntry | data_handler.py:84 | The entry construction and write_bib raise on the same papers: exactly those whose "bib" is not a dict |
| DataHandler.Tag | data_handler.py:55 | After tagging, "query" holds the directory's stem; every other key keeps its value |
| DataHandler.PickleNames | data_handler.py:49 | A file is kept iff its name is some base followed by ".pickle"; "data.pickle" is kept, "data.pickle.bak" and "pickle" are not |
| DataHandler.ReadPickles | data_handler.py:31-58 | The nested loops return `LoadAll(walk)`: the tagged records of the pickle files, directory by directory, file by file |
| DataHandler.LoadDirStep | data_handler.py:48-57 | One round of the inner loop: a non-pickle file leaves the list as it is, a pickle file appends its record with "query" set to the stem, which is what the directory's reading adds |
| DataHandler.LoadDirLast | data_handler.py:48-57 | The directory's last file adds exactly what reading that one file as a listing adds |
| DataHandler.LoadAllStep | data_handler.py:47-57 | One round of the outer loop appends the reading of all the directory's files |
| DataHandler.LoadAllIsLoadListing | data_handler.py:46-58 | The loops give the same records, in the same order, as filtering the flat listing and tagging what is kept |
| DataHandler.ReadPicklesTags | data_handler.py:46-58 | One record per ".pickle" file of the walk, in listing order. Each has its directory's stem as "query" and every other key from the file |
| DataHandler.NonPickleIgnored | data_handler.py:49-50 | A file whose name does not end with ".pickle" contributes nothing |
| DataHandler.PickleFilesMembers | data_handler.py:49-50 | The kept files are exactly the listed files whose name ends with ".pickle" |
| DataHandler.PickleFilesAppend | data_handler.py:48-50 | Filtering distributes over concatenated listings |
| DataHandler.ListingMembers | data_handler.py:47-48 | A (directory, file) pair is listed iff the walk visited that directory and found the file in it |
| DataHandler.LoadDirIsListing | data_handler.py:48-57 | The inner loop over one directory's first n files reads what the flat reading of the same files reads |
| DataHandler.LoadListingAppend | data_handler.py:47-57 | Reading concatenated listings gives the concatenated readings |
| DataHandler.LoadDirAppend | data_handler.py:48-57 | Reading one directory's files distributes over concatenation of the file list |
| Paths.Name | data_handler.py:55 | `Path.name`: the suffix of the path after its last '/', with no '/' in it; for "." it is empty |
| Paths.StemOfCurrentDir | data_handler.py:46-55 | The walk's root "." has empty name and stem, so its records get "" as their query |
| Paths.NameOfJoin | data_handler.py:55 | The name of `dir / name` is `name` |
| Paths.Stem | data_handler.py:55 | `Path.stem`: a prefix of the name, without '/'; a name without '.' is its own stem |
| Paths.StripSuffix | data_handler.py:55 | Drops exactly the text from the last '.' on, unless that '.' is the first or last character |
| Paths.StemDropsSuffix | data_handler.py:55 | The directory `pickle_cache/v2.0` has name `v2.0` but stem `v2` |
| Paths.StemIsName | data_handler.py:55 | The stem is shorter than the name exactly when the name has a '.' after its first character and does not end with '.' |
| Paths.StemCutsQuery | data_handler.py:55 | The directory `pickle_cache/deep learning vs. ML` has stem `deep learning vs` |
| PyDicts.Get | data_handler.py:84 | `.get(k)` finds a value exactly when k is a key, and the value found is stored under k |
| PyDicts.GetInDict | data_handler.py:84 | In a dict with distinct keys, `.get` of an item's key returns that item's value |
| PyDicts.GetOr | data_handler.py:84-90 | `.get(k, default)`: the value stored under k when k is present, the default otherwise |
| PyDicts.Set | data_handler.py:55 | After `d[k] = v`, k maps to v and every other key to what it mapped to. An existing key keeps its position; a new key is appended |
| PyDicts.SetKeepsDict | data_handler.py:55 | Assigning a key keeps the keys distinct |
| PyValues.RenderShows | data_handler.py:27 | `str()` in an f-string: a string shows as itself, an int as its sign and decimal digits that read back as its magnitude, a bool as True/False, None as None |
| PyValues.NatToDecimal | data_handler.py:27 | The decimal text of a non-negative int: digits only, no leading zero, and reading it back gives the number |
| PyValues.EndsWithSplit | data_handler.py:49 | `s.endswith(suffix)` holds exactly when s is some text followed by suffix |
| PyValues.RFind | data_handler.py:55 | `str.rfind`: -1 or the index of the last occurrence of the character |
| PyValues.ConcatMapAppend | data_handler.py:25-27 | Text grown by `+=` over two sequences laid end to end is the concatenation of the two texts |
| PyValues.ConcatMapFilter | data_handler.py:25-27 | Skipping the elements that add nothing does not change text grown by `+=` |
| PyValues.FilterMembers | data_handler.py:25-26 | Filtering keeps exactly the accepted elements of the prefix |

## Left out

- data_scraper.py (the Google Scholar search and the pickle cache writer) is not part of this model.
- load_config, save_results and main are not modelled. They only read and write files: JSON, CSV through pandas, and the .bib file.
- pickle.load and the file system are not modelled. `ReadPickles` takes the walk as a value: each directory path with its files in order, and each file's name with the record it unpickles to.
- Paths.Name: a path is taken as `Path.walk` yields it; a raw string with "." or empty components inside is not normalised first.
- Path.walk's visiting order is not modelled; the walk comes in as given. Files `open` cannot read, and pickles that are not dicts, are not modelled either.
- ReadPickles: the record is a value, so the in-place `paper['query'] = ...` is modelled as building the updated dict. Aliasing between records is not captured.
- PyValues.Render: `str()` of objects other than str, int, bool and None is carried as the text it produces (`Other`), not computed. Floats are among them.
- PyValues.Render: CPython 3.11 and later raise ValueError on `str()` of an int with more than 4300 digits; the model prints the digits.
- DataHandler.BibOf: a "bib" that is a mapping other than a dict has a `.get` of its own and does not raise; the model has no such value, since every non-dict "bib" is a `Scalar`.
- DataHandler.Extract: a paper record whose top-level value is not a dict is outside the model, as is a "bib" dict whose values are themselves dicts.
