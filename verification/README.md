# PyTree directory lister: a Dafny model of its core

`main.py` lists a directory. It scans the start directory with `os.scandir`, either
alone or breadth-first through every subdirectory. Each directory's files are
recorded in an insertion-ordered dictionary, along with the four global counters.
That dictionary is flattened into a list of paths. The sorted list is rebuilt into
a nested dictionary below its first path (the root). The result is printed as a
tree with `├──`/`└──` connectors, each name coloured by what the filesystem reports
about its path.

This project models that core in Dafny 4.11 and proves what it promises. The
filesystem is an input: a finite `Entry` tree for `os.scandir`, and a function
from path to `Meta` for the `islink`/`exists`/`isdir`/`stat` answers the
colouring asks for.

Modules, in the program's order:

- `Opt` (option.dfy): the `Option` type.
- `Order` (order.dfy): Python's `str` ordering, and `sorted` as a key-directed
  insertion sort.
- `Paths` (paths.dfy): `os.path.join`, `lstrip('/')`, `split`/`join` on a
  separator, `os.path.splitext` and `lower`.
- `FileSystem` (filesystem.dfy): directory entries, the counters, and the scan map,
  an insertion-ordered list of `(directory, files)` pairs.
- `Scanner` (scanner.dfy): `add_dir`.
- `Walker` (walker.dfy): `add_all_dirs` and the non-recursive branch.
- `Flatten` (flatten.dfy): `dict_to_list`.
- `Hierarchy` (hierarchy.dfy): the dictionary `format_tree` builds from the
  sorted paths.
- `Classify` (classify.dfy): `get_color_for_path` and the `Colours` table.
- `Render` (render.dfy): `build_lines`, the root loop and `"\n".join`.
- `Pipeline` (pipeline.dfy): the script's main flow.

Each operation has a partner:

- The walker is matched against depth-first reference sets and counts
  computed from the `Entry` tree.
- The builder is matched against the `Has` relation (a node exists under a
  list of names).
- The printer is matched against a closed-form outline. Each line of the
  outline is built from its ancestors' last-sibling flags.

## Model

| member | source | states |
|---|---|---|
| Scanner.List | main.py:98-109 | The listing loop keeps one file path per file entry and one pending directory per directory entry, listable or not. Each faulty entry counts one skip. |
| Scanner.ListMembers | main.py:98-109 | A path is in the file list exactly when it is the joined name of a file entry. A pending directory is exactly a directory entry under its joined path. |
| Scanner.ListDirPaths | main.py:103-105 | The queued subdirectory paths are exactly the joined names of the entries that are directories when links are not followed. |
| Scanner.ListFilePaths | main.py:100-102 | The recorded file paths are exactly the joined names of the regular-file entries. Links, fifos and the like are dropped. |
| Scanner.RecordDirsSpec | main.py:112-113 | `tree[d] = []` for each subdirectory adds exactly those keys, each mapped to an empty list, and changes no other key. It adds no file path. |
| Scanner.Scan | main.py:88-113 | A listing that raises only counts one skip. A successful one adds the file, directory and fault counts of its entries to the counters and hands back exactly the subdirectories found. |
| Scanner.ScanRecords | main.py:111-113 | After a successful scan, the keys are the old keys plus `dir` plus every subdirectory. `dir` maps to its files unless a subdirectory has the same path, and each subdirectory maps to `[]`. Every other key keeps its old files, and no file path outside the listing is added. |
| Scanner.AddDirAsWritten | main.py:83-119 | `add_dir` as written: a failed listing returns the pair even when `return_dirs` is false. |
| Scanner.AddDir | main.py:83-119 | `add_dir` as intended: the pair exactly when `return_dirs` is true, with the scan's map, counters and subdirectories. |
| FileSystem.PutSpec | main.py:111-113 | Dictionary assignment adds the key at the end if it is new, or replaces the value in place. Lookups of other keys are unchanged. |
| FileSystem.LookupSpec | main.py:111-113 | A lookup fails exactly for keys not in the map, and otherwise returns a stored pair. |
| Walker.Layer | main.py:128-133 | One pass over the queued directories leaves strictly less to scan and does not touch the searched-directories count. |
| Walker.ScanShrinks | main.py:128-133 | The subdirectories a scan queues hold fewer entries than the directory itself, so the `while dirs` loop ends. |
| Walker.WalkAllUniqueKeys | main.py:121-136 | The breadth-first walk never records a directory key twice. |
| Walker.WalkAllCounts | main.py:121-136 | After the walk, `dirs_searched` is the number of directories visited: the start plus every directory entry below a listable one. `skipped`, `files_found` and `dirs_found` grow by the counts of the whole tree. |
| Walker.WalkAllPaths | main.py:121-136 | The walk records as keys exactly the start (when listable) and every directory below a listable directory. Every recorded file lies in a listable directory. |
| Walker.WalkOneAsWritten | main.py:138-142 | The non-recursive branch as written ends in a crash exactly when the start cannot be listed. It always counts one searched directory. |
| Walker.WalkOne | main.py:138-142 | The corrected non-recursive branch: one searched directory. On success it adds the start's own listing counts; on failure it leaves an empty map and one skip. |
| Walker.WalkOneKeys | main.py:138-142 | Without recursion the keys are the start and its immediate directory entries. |
| Walker.WalkOneValues | main.py:138-142 | Without recursion the files are exactly the start's own regular files. |
| Walker.UnreadableStartCrashesAsWritten | main.py:93 | With an unreadable start, the non-recursive branch as written crashes. The corrected branch and the recursive walk both give an empty map. |
| Walker.WalkOneAgreesWhereListed | main.py:138-142 | Wherever the program as written does not crash, it agrees with the corrected branch. |
| Flatten.FlattenLength | main.py:144-153 | The flattened list has one entry per directory plus one per recorded file. |
| Flatten.Layout | main.py:144-153 | Each directory appears right after the earlier directories and their files, followed directly by its own files in order. |
| Flatten.FlattenMembers | main.py:144-153 | A path is in the flattened list exactly when it is a recorded directory or a recorded file. |
| Flatten.FlattenAppend | main.py:147-151 | Flattening distributes over concatenation of maps. |
| Order.SortBy | main.py:156 | `sorted` returns a permutation of its input, ascending by key. |
| Order.SortPermutationInvariant | main.py:156 | Sorting any permutation of a list gives the same list, so `format_tree` sees only the multiset of paths. |
| Order.SortByDistinctKeys | main.py:185 | With distinct names, sorting the children by name gives a strictly ascending list. |
| Paths.SplitJoinSegs | main.py:173 | `split('/')` undoes `'/'.join` on slash-free segments. |
| Paths.Split | main.py:173 | `split` never returns an empty list, no segment holds the separator, and joining the segments gives the string back. |
| Paths.LStripSlash | main.py:169 | `lstrip('/')` removes exactly the leading slashes. |
| Paths.SplitExtSpec | main.py:73 | `splitext` cuts at the last dot of the last component, but only when a non-dot character comes earlier in that component. The two parts concatenate to the path. |
| Paths.SplitExtLastComponent | main.py:73 | The extension of `dir/name` is the extension of `name`: dots in directory names never count. |
| Hierarchy.Build | main.py:155-181 | The built dictionary is empty exactly when there are no paths. |
| Hierarchy.BuildRoot | main.py:156-159 | The root is one of the paths and sorts no later than all of them. |
| Hierarchy.BuildDependsOnSet | main.py:155-181 | Two path lists with the same elements, in any order and with any repetition, build the same dictionary. |
| Hierarchy.InsertIdempotent | main.py:173-181 | Inserting the same path twice in a row changes nothing after the first. |
| Hierarchy.BuildComplete | main.py:155-181 | For canonical paths containing their root, every other path's segments are present in the dictionary. Neither the root's reset nor a leaf's overwrite loses anything. |
| Hierarchy.BuildProvenance | main.py:163-181 | Every node of the dictionary is a leading part of the segments of some non-root path. |
| Hierarchy.BuildWellNamed | main.py:174-181 | No node of the dictionary has two children with the same name. |
| Hierarchy.CanonicalJoin | main.py:101-104 | Joining a non-empty, slash-free entry name to a canonical path gives a canonical path with exactly one more segment. |
| Hierarchy.CanonicalPrefixLess | main.py:156 | A path whose segments properly extend another's sorts after it. So a directory is inserted before anything below it, and its leaf overwrite destroys nothing. |
| Hierarchy.LeafOverwriteNeedsOrder | main.py:180-181 | The leaf assignment does replace subtrees: in an unsorted order, inserting `a` after `a/b` would lose `a/b`. |
| Classify.ClassifyTable | main.py:53-81 | The full decision table: a link that resolves is cyan and a broken one red; a directory is blue; an owner-executable file is green. Only a statable, non-executable file is coloured by extension: archives red, images magenta. Everything else is the default; yellow and reset are never chosen. |
| Classify.CodesDistinct | main.py:32-51 | With colours on, only the default code is empty. The non-default codes are pairwise distinct and each starts with its only ESC. |
| Classify.ExtensionOfLastComponent | main.py:73-77 | The archive/image test reads only the file's own name. |
| Render.ItemsAreRendered | main.py:183-200 | The prefix `build_lines` accumulates equals the closed-form indentation of each node's ancestors. So its lines are the rendered outline below the node. |
| Render.RootItemsAreRendered | main.py:209-220 | The same for the root loop, with its wider first column. |
| Render.IndentAppend | main.py:197 | Each level below adds one column: blank under a last sibling, a vertical line otherwise. The first column is wider. |
| Render.OutlineSound | main.py:183-200 | Every printed line below the root names a node of the dictionary. |
| Render.OutlineComplete | main.py:183-200 | Every node of the dictionary gets a line. |
| Render.OutlineDistinct | main.py:183-200 | No node gets two lines. |
| Render.Siblings | main.py:185-188 | The children of a node are printed in strictly ascending name order, each once, and only the last uses `└──`. Each child's colour is looked up under its parent's path joined with its name. |
| Render.FormatTreeLines | main.py:202-222 | No paths give the empty string. Otherwise the first line is the coloured root, followed by one rendered line per listed node. |
| Render.TextSplitsIntoLines | main.py:222 | Splitting the printed text at newlines gives the lines back when no line holds a newline. |
| Render.PlainWhenColoursOff | main.py:32-56 | With colours off, a line is its indentation, connector and bare name: no escape code reaches a file. |
| Render.TreeListsPaths | main.py:155-222 | For canonical paths containing their root, the lines below the root show every other path exactly once, by its segments. The colour of that line is looked up under the path itself, as `full_path` rebuilds it at main.py:191 and 213. They show nothing that is not a leading part of a path. |
| Pipeline.RunUnlistableStart | main.py:88-93 | With `add_dir` corrected, a start that cannot be listed prints nothing in either mode. It counts one searched directory, one skip and nothing found. As written, a run without `-r` crashes instead (Pipeline.RunAsWrittenCrashes). |
| Pipeline.RunAsWrittenCrashes | main.py:93 | The program as written crashes exactly on a non-recursive run with an unlistable start. Every other run prints what the corrected model prints. |
| Pipeline.ScanCanonical | main.py:98-113 | Every path a scan of well-formed names records is canonical below the start directory, and the start is recorded. |
| Pipeline.RunListsEveryPath | main.py:138-234 | A run on a listable start prints the start first, then one line per node. Every recorded directory and file appears exactly once, in either mode, coloured by what the filesystem reports for that path, and no line appears that does not lead to a recorded path. |

## Left out

- Command-line parsing (`argparse`), the timer, `print_summary` and writing the text to a terminal or a file are I/O. The model returns the text and the counters. The colour switch is an input; `Pipeline.UseColours` derives it from the output option.
- The `-a`/`--all` flag is parsed but never used, so it has no model.
- The unused `is_last` parameter of `build_lines` has no model. Neither do `VERTICAL_LINE` and `HORIZONTAL_LINE`, which are never used.
- The filesystem is a finite `Entry` tree and a path-to-`Meta` function. Changes to the filesystem during the scan are not modelled. Neither is the way `os.scandir` orders entries: the listing order is part of the input.
- A listing that raises partway through iteration (after some entries) is not modelled. A listing either fails at `os.scandir` or yields all its entries; an entry whose type query raises is `Faulty`.
- `str.lower` is modelled on ASCII letters only. For the archive and image test this is exact: the only non-ASCII character that lowercases to ASCII is KELVIN SIGN (to `k`), and no listed extension contains `k`.
- Python strings are sequences of code points and are compared by code point. Unicode normalisation and encodings are not modelled.
- Walker.WalkAllPaths: the recorded files are shown to be a subset of the reference file set, not equal to it. A file can be lost when a subdirectory with the same path later overwrites a directory's entry in the scan map. Equality needs path uniqueness across the whole tree, which is not stated.
- Render.TreeListsPaths, Pipeline.RunListsEveryPath: the completeness and provenance statements assume entry names are non-empty and slash-free (`FileSystem.WellFormed`), as the operating system guarantees. Line-splitting additionally needs names without newlines (Render.TextSplitsIntoLines), which POSIX does not guarantee.

## Findings

| source | as written | input that shows it | evidently intended | confidence | as-written member | corrected member |
|---|---|---|---|---|---|---|
| main.py:93 | `return tree, [] if return_dirs else []` parses as `return (tree, ([] if return_dirs else []))`, so a failed listing always returns a pair. | A non-recursive run (no `-r`) on a start directory that cannot be listed. `add_dir` returns `({}, [])`, and `dict_to_list` then calls `.items()` on a tuple and raises. | `return (tree, []) if return_dirs else tree`: the map alone when `return_dirs` is false, so the run prints an empty tree and the summary. | high, not executed | Walker.UnreadableStartCrashesAsWritten | Walker.WalkOne |
