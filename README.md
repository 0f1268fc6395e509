# filePathAsURL — a verified model of okayws's path-to-route normaliser

okayws renders one markdown file, `design/design.md`, to HTML and serves the
page over HTTP at a single route. It derives that route from the file's path
with `filePathAsURL` (`trial/main.go`). The function works in four steps:

1. It strips the final extension (`filepath.Ext`, then `strings.TrimSuffix`).
2. It splits the path on the separator and drops the empty components.
3. It normalises each component:
   - lower-cases it;
   - turns spaces and underscores into `-`;
   - keeps only `a`–`z` and `-` and drops every other character;
   - trims the leading and trailing dashes.

   A component that ends up empty makes the whole call fail with
   `path resolved to empty string`.
4. It joins the normal components with `/` behind a leading `/`.

The project has four modules:

- `GoStrings` (`go_strings.dfy`) holds the Go library helpers the function
  calls, as functions on `string` (a sequence of code points):
  - `strings.ToLower`, `Split`, `Join`, `Trim` and `TrimSuffix`;
  - `filepath.Ext`, written as the backward scan Go performs (`DotIndex`).

  It also proves their round-trips and how `Ext` treats a path with
  directories.
- `UrlPath` (`url_path.dfy`) is the specification. It gives:
  - the per-character mapping (`MapChar`, `Fold`);
  - one component's normal form (`NormPart`);
  - the filter of empty components (`NonEmpty`);
  - the final loop for any per-component step (`MapAll`; `NormAll` is
    `MapAll` applied to `NormPart`);
  - the whole function (`Route`).

  Its lemmas characterise each of these.
- `UrlPathImpl` (`url_path_impl.dfy`) mirrors the Go code's loops as methods.
  Each method is proved equal to its specification:
  - the filtering closure, with its `continue`;
  - the `okChars` table, filled in a loop;
  - `normParts`, with its labelled `continue LOOP` out of the `dashChars`
    loop;
  - the final loop, which overwrites each component in place and returns at
    the first rejection.
- `RouteProps` (`route_props.dfy`) proves what the route promises:
  - its shape and alphabet, and that it is `/` when there are no components;
  - the exact failure condition;
  - that components keep their count and order;
  - idempotence;
  - that empty components (leading, doubled or trailing separators) are
    ignored;
  - that only the final element loses its extension. A trailing separator
    makes the final element a directory, so `a/b.md/` keeps `.md` and gives
    `/a/bmd` where `a/b.md` gives `/a/b`.

## Model

| member | source | states |
|---|---|---|
| GoStrings.LowerChar | trial/main.go:76 | a character is a lower-case letter after lowering exactly when it was a letter of either case; only `A`–`Z` change, each by the fixed case offset |
| GoStrings.ToLower | trial/main.go:76 | lowering keeps the length; `ToLowerChars` states the per-character effect |
| GoStrings.ToLowerChars | trial/main.go:76 | lowering a string lowers each character on its own; length is kept |
| GoStrings.Split | trial/main.go:56 | splitting always yields at least one piece; no piece holds the separator; a separator-free string is one piece |
| GoStrings.Join | trial/main.go:102 | a join of at least one piece is at least as long as its first piece; `SplitJoin` and `JoinSplit` relate it to `Split` |
| GoStrings.JoinSplit | trial/main.go:56 | joining the pieces of a split gives the string back |
| GoStrings.SplitAppend | trial/main.go:56 | splitting distributes over a separator: the pieces of `a/b` are the pieces of `a` followed by those of `b` |
| GoStrings.SplitJoin | trial/main.go:102 | splitting a join of separator-free pieces gives the pieces back |
| GoStrings.TrimLeft | trial/main.go:89 | the left trim never lengthens, and what is left does not start with the cut character |
| GoStrings.TrimLeftDrops | trial/main.go:89 | the left trim keeps a suffix and removes only dashes; what is left does not start with one |
| GoStrings.TrimRight | trial/main.go:89 | the right trim never lengthens, and what is left does not end with the cut character |
| GoStrings.TrimRightDrops | trial/main.go:89 | the right trim keeps a prefix and removes only dashes; what is left does not end with one |
| GoStrings.Trim | trial/main.go:89 | a non-empty trimmed string neither starts nor ends with the cut character |
| GoStrings.TrimInfix | trial/main.go:89 | the trim keeps the infix between the leading and trailing runs, inner runs included; it is empty exactly when every character is the cut character |
| GoStrings.TrimSuffix | trial/main.go:53 | a present suffix is removed so that result + suffix is the input; otherwise the input is unchanged |
| GoStrings.DotIndex | trial/main.go:53 | the backward scan returns the position of a `.` at or before its starting point, or the length of `f` for none; `DotIndexFinal` states where it stops |
| GoStrings.DotIndexFinal | trial/main.go:53 | for a scan started where nothing later is a `.` or a separator: reporting none means the final element has no `.`; a reported `.` lies after the last separator; nothing after the reported position is a `.` or a separator |
| GoStrings.Ext | trial/main.go:53 | a non-empty extension starts with `.` |
| GoStrings.Stem | trial/main.go:53 | the stripped path followed by the extension is the original path |
| GoStrings.ExtFinalDot | trial/main.go:53 | the extension lies after the last separator and starts at the final element's last `.`; it is empty exactly when the final element has no `.` |
| GoStrings.StemAfterSeparator | trial/main.go:53 | for `a/b`, the extension is that of `b` and the stem is `a/` + the stem of `b`: dots in directory names are never taken for an extension |
| UrlPath.MapChar | trial/main.go:77-87 | a character maps to at most one character; `MapCharCases` states which |
| UrlPath.MapCharCases | trial/main.go:77-87 | a space or `_` becomes `-`, `a`–`z` and `-` stay as they are, and every other (already lowered) character is dropped |
| UrlPath.Fold | trial/main.go:75-88 | the per-character pass never lengthens a component |
| UrlPath.FoldAllowed | trial/main.go:83-87 | the per-character pass emits only `a`–`z` and `-` |
| UrlPath.FoldStep | trial/main.go:75-88 | each character appends exactly its own mapping to the output |
| UrlPath.FoldChar | trial/main.go:75-88 | a one-character component yields that character's mapping |
| UrlPath.FoldAppend | trial/main.go:75-88 | the pass over a concatenation is the concatenation of the passes |
| UrlPath.FoldAllDashes | trial/main.go:75-88 | the pass yields only dashes exactly when the input has no lower-case letter |
| UrlPath.FoldKeepsAllowed | trial/main.go:75-88 | the pass leaves a string of `a`–`z` and `-` unchanged |
| UrlPath.NormPart | trial/main.go:73-94 | a normalised component is non-empty, has no leading or trailing dash and holds only `a`–`z` and `-`; the only error is `path resolved to empty string` |
| UrlPath.NormPartFailsIff | trial/main.go:90-92 | a component is rejected exactly when it holds no ASCII letter of either case |
| UrlPath.NormPartIsInfix | trial/main.go:89 | a normal form is the per-character output with only its leading and trailing dashes removed, so inner dashes are kept |
| UrlPath.NormalPartFixed | trial/main.go:73-94 | a component the normaliser can emit normalises to itself |
| UrlPath.NormPartIdempotent | trial/main.go:73-94 | normalising a normal form again gives the same normal form |
| UrlPath.NonEmpty | trial/main.go:57-66 | the filter never adds components |
| UrlPath.NonEmptyAppend | trial/main.go:57-66 | filtering a concatenation filters each part, in order |
| UrlPath.NonEmptyMembers | trial/main.go:57-66 | the filter keeps exactly the non-empty components |
| UrlPath.NonEmptyKeeps | trial/main.go:57-66 | a list without empty components passes the filter unchanged |
| UrlPath.MapAll | trial/main.go:95-101 | when the final loop fails, its error is the rejection of one of the components; on success it has one output per input |
| UrlPath.MapAllOkSound | trial/main.go:95-101 | when the final loop succeeds, each output is the step's result on the input at the same position |
| UrlPath.MapAllOkComplete | trial/main.go:95-101 | when the step succeeds on every input, the final loop succeeds with those results in order |
| UrlPath.MapAllFails | trial/main.go:95-101 | the final loop fails exactly when some input is rejected, and with that input's error |
| UrlPath.MapAllStep | trial/main.go:95-101 | one more accepted component extends the result by its normal form |
| UrlPath.NormAll | trial/main.go:95-101 | the final loop's only error is `path resolved to empty string`, and on success it has one output per component |
| UrlPath.NormAllOk | trial/main.go:95-101 | the final loop succeeds with `ps` exactly when `ps` has one entry per component and each is that component's normal form |
| UrlPath.NormAllFails | trial/main.go:95-101 | the final loop fails exactly when some component is rejected, and then with `path resolved to empty string` |
| UrlPath.NormAllStops | trial/main.go:98-100 | a single rejected component makes the final loop fail with its message |
| UrlPath.Components | trial/main.go:53-66 | the components of a path are non-empty and hold no separator |
| UrlPath.RouteOf | trial/main.go:95-102 | the route built from components starts with `/`, and its only error is `path resolved to empty string` |
| UrlPath.Route | trial/main.go:50-103 | the whole function's route starts with `/`, and its only error is `path resolved to empty string` |
| RouteProps.JoinAllowed | trial/main.go:102 | joining normal components yields only `a`–`z`, `-` and the separator |
| RouteProps.JoinShape | trial/main.go:102 | `/` + the join of normal components holds only `a`–`z`, `-` and `/`, and is exactly `/` when there are none |
| RouteProps.SplitRoute | trial/main.go:102 | splitting a route yields an empty piece and then the route's components |
| RouteProps.ComponentsOfJoin | trial/main.go:102 | the components of `/` + the join of normal components are those components again |
| RouteProps.RouteShape | trial/main.go:102 | a route starts with `/` and holds only `a`–`z`, `-` and `/`; it is exactly `/` when the path has no non-empty component |
| RouteProps.RouteComponents | trial/main.go:95-102 | the route has as many components as the path, in the same order, each the normal form of the path's component |
| RouteProps.RouteFailsIff | trial/main.go:90-99 | the function fails exactly when some non-empty component holds no ASCII letter, and always with `path resolved to empty string`; no component is skipped |
| RouteProps.RootRoute | trial/main.go:102 | a path with no non-empty component (`""`, `/`, `.md`) gives `/` |
| RouteProps.RouteIdempotent | trial/main.go:50-103 | feeding a route back in returns it unchanged |
| RouteProps.LeadingSeparatorIgnored | trial/main.go:56-66 | a leading separator does not change the result (`/a/b.md` and `a/b.md` give the same route) |
| RouteProps.DoubledSeparatorIgnored | trial/main.go:56-66 | a doubled separator reads as one (`a//b.md` and `a/b.md` give the same route) |
| RouteProps.TrailingSeparatorIgnored | trial/main.go:56-66 | a trailing separator does not change the result when the final element has no extension |
| RouteProps.TrailingSeparatorKeepsExtension | trial/main.go:53-66 | after a trailing separator the final element keeps its extension: the components of `a/b.md/` are `a` and `b.md`, so the route is `/a/bmd`, not `/a/b` |
| RouteProps.DirectoriesKeepDots | trial/main.go:53-66 | only the final element loses its extension: the components of `a/b` are the non-empty pieces of `a`, dots included, followed by the components of `b` |
| UrlPathImpl.DropEmpty | trial/main.go:57-66 | the filtering loop returns exactly the filter's result |
| UrlPathImpl.OkCharListAllowed | trial/main.go:69 | the `okChars` list holds exactly `a`–`z` and `-` |
| UrlPathImpl.BuildOkChars | trial/main.go:68-71 | the table filled in the loop has exactly `a`–`z` and `-` as keys, each mapped to true |
| UrlPathImpl.NormalizePart | trial/main.go:73-94 | the character loop with its labelled `continue` computes exactly the component's normal form or its rejection |
| UrlPathImpl.NormalizeEach | trial/main.go:95-101 | the in-place loop returns what the final loop specifies; on success the array holds the normal forms |
| UrlPathImpl.FilePathAsURL | trial/main.go:50-103 | the whole function returns exactly `Route(f)`, so every `RouteProps` lemma holds of it |

## Left out

- `getFileAsMarkdown`, `fillTemplate` and `main` are not part of this model.
  They do file and network I/O, markdown rendering and HTML templating.
- GoStrings.ToLower: only `A`–`Z` are lowered. Go's `strings.ToLower` uses the
  Unicode tables, so it also maps U+212A KELVIN SIGN to `k` and U+0130 (capital
  I with dot above) to `i`. The model drops those two characters instead of
  keeping them as letters. Every other non-ASCII character lowers to a
  character outside `okChars` in both, so the model and the code drop it alike.
- The separator is fixed to `/` (`os.PathSeparator` on Unix-like systems). On
  Windows the separator is `\`, and `filepath.Ext` also stops at `/`; that
  variant is not modelled.
- Strings are sequences of Unicode code points, not of bytes. `strings.Split(s,
  "")` yields one string per UTF-8 sequence, and the code tests
  `len(output) < 1` on bytes. For valid UTF-8 both agree with the model. An
  invalid byte is never in `okChars` and is dropped in either reading.
- UrlPathImpl.NormalizeEach: the final loop is a method of its own rather than
  inline in `FilePathAsURL`. After a rejection its contract says nothing about
  the array, which the code discards. The array is a fresh copy of the
  filtered components, whereas Go overwrites the slice it got from the filter;
  nothing else holds that slice, so no aliasing is lost.
- The error is modelled as its message string. Go's `errors.New` value and the
  empty string returned beside it are not represented.
