# react-email preview-stub generator, in Dafny

This project models `createEmailPreviews` from react-email's
`packages/react-email/source/utils/generate-email-preview.ts`. The `email
preview` command calls it before it starts the preview app. It does three
things in order:

1. If the preview package's emails directory exists, it removes it.
2. It lists every `.jsx`/`.tsx` template below the user's emails directory.
3. For each template it writes a stub at the mirrored place under the preview
   package's emails directory. The stub is a two-line module that imports the
   template through a relative path (extension stripped) and re-exports it:

       import Mail from '../../../emails/welcome';
       export default Mail;

The model also covers the status check of `createStaticFiles`, a separate
function in the same file. That check reports an error when copying the
`static` directory fails.

The project has three modules:

- `JsString` (`js_string.dfy`) models the JavaScript string operations the
  generator calls: `replace` with a string pattern (only the first
  occurrence is replaced), `split` on `/` and `pop`. Two more functions
  support them. `indexOf` is how `replace` finds its match. `join`
  is how the model builds path text from segments.
- `PosixPath` (`posix_path.dfy`) models the calls into Node's `path` module:
  - `join`, including the normalisation it does (`.`, `..`, repeated and
    trailing separators);
  - `dirname`, an exact copy of Node's right-to-left scan;
  - `relative`;
  - `extname`.

  Paths are strings, as in the source. An absolute normalised path is
  `Render(segments)`, that is `/` followed by the segments joined with `/`.
  `Resolve` parses a path back into its segments.
- `EmailPreview` (`generate_email_preview.dfy`) models the generator itself:
  - The filesystem is a `FileTable` object whose `files` field maps path
    strings to contents.
  - `CreateEmailPreviews` is a method. It wipes the target directory, then
    runs the source's `for` loop, which writes one stub per listed template.
    Its postcondition ties the new table to the function `AfterPreviews`.
  - The lemmas state what the generator promises about that function.

The preview package's emails directory (`PACKAGE_EMAILS_PATH`, defined in a
constants file outside this model) is the parameter `targetRoot`. The paths
glob's directory walk visits are the parameter `walk`.

## Model

| member | source | states |
|---|---|---|
| `EmailPreview.IsTemplateName` | packages/react-email/source/utils/generate-email-preview.ts:33 | no contract: the name test of `*.{jsx,tsx}` (not hidden, ending in `.jsx` or `.tsx`); `Glob` and `TemplateExtensionFound` state its consequences |
| `EmailPreview.MatchesTemplatePattern` | packages/react-email/source/utils/generate-email-preview.ts:33 | no contract: the pattern `<emailDir>/**/*.{jsx,tsx}` under glob's default that hidden names do not match; `Glob` is proved against it |
| `EmailPreview.FileName` | packages/react-email/source/utils/generate-email-preview.ts:45 | no contract: `split('/')` then `pop()` as written; `FileNameIsLastSegment` proves what it yields |
| `EmailPreview.TargetFile` | packages/react-email/source/utils/generate-email-preview.ts:46 | no contract: `path.join(root, src.replace(emailDir, ''))` as written; its properties are proved in `TargetFileMirrors`, `MirrorCanonical`, `TargetUnderRoot` and `TargetsDistinct` |
| `EmailPreview.ImportPath` | packages/react-email/source/utils/generate-email-preview.ts:47 | no contract: `path.relative` between the two `dirname`s as written; `ImportWithExtensionShape` proves its shape |
| `EmailPreview.ImportWithExtension` | packages/react-email/source/utils/generate-email-preview.ts:49 | no contract: `path.join(importPath, fileName)` as written; `ImportWithExtensionShape` proves its shape |
| `EmailPreview.StripExtension` | packages/react-email/source/utils/generate-email-preview.ts:50 | no contract: `replace(extname(f), '')` as written; `StripTemplateExtension` and `ExtensionStrippedTooEarly` prove both of its cases |
| `EmailPreview.ImportFile` | packages/react-email/source/utils/generate-email-preview.ts:47-50 | no contract: lines 47-50 composed; `ImportFileShape` and `ImportResolvesToTemplate` prove where it points |
| `EmailPreview.SourceCode` | packages/react-email/source/utils/generate-email-preview.ts:52 | no contract: the template literal, then `replace(';', ';\n')` as written; `SourceCodeShape` and `SourceCodeSemicolonInPath` prove its text |
| `EmailPreview.StubText` | packages/react-email/source/utils/generate-email-preview.ts:44-52 | no contract: the text the loop writes for one template; `StubsValue` and `PreviewsExact` place it |
| `EmailPreview.Under` | packages/react-email/source/utils/generate-email-preview.ts:27-31 | no contract: a path lies at or below the root once both are resolved; `TargetUnderRoot` and `StubsUnderRoot` are stated with it |
| `EmailPreview.Wipe` | packages/react-email/source/utils/generate-email-preview.ts:27-31 | no contract: `rm(root, { recursive: true })` on the file table; `WipeAbsent` and `OutsideRootUntouched` state its effect |
| `EmailPreview.AfterPreviews` | packages/react-email/source/utils/generate-email-preview.ts:26-56 | no contract: the whole run as a function of the old table; `CreateEmailPreviews` ends in it, and `PreviewsExact`, `OutsideRootUntouched` and `PreviewsIdempotent` are proved about it |
| `EmailPreview.CopyFailed` | packages/react-email/source/utils/generate-email-preview.ts:72 | no contract: `result.code > 0` as written; `StaticCopyOutcome` uses it |
| `EmailPreview.Glob` | packages/react-email/source/utils/generate-email-preview.ts:33-35 | a walked path is listed exactly when it lies below `emailDir`, no directory between them is hidden, and its name is `*.jsx` or `*.tsx`; the list never exceeds the walk |
| `EmailPreview.WipeAbsent` | packages/react-email/source/utils/generate-email-preview.ts:27-31 | when nothing lies at or below the target directory, skipping the removal leaves the same files as removing it |
| `EmailPreview.Stubs` | packages/react-email/source/utils/generate-email-preview.ts:44-55 | the loop's writes land exactly on the mirrored paths of the listed templates |
| `EmailPreview.CreateEmailPreviews` | packages/react-email/source/utils/generate-email-preview.ts:26-56 | the new file table is the old one with everything below the target root removed, then one stub written per listed template, in list order |
| `EmailPreview.FileNameIsLastSegment` | packages/react-email/source/utils/generate-email-preview.ts:45 | `split('/').pop()` of a normalised absolute path other than `/` gives its last segment |
| `EmailPreview.TargetFileMirrors` | packages/react-email/source/utils/generate-email-preview.ts:46 | a template at `emailDir/rel` gets its stub at `targetRoot/rel`, including when `emailDir` is `/` |
| `EmailPreview.MirrorCanonical` | packages/react-email/source/utils/generate-email-preview.ts:46 | for normalised absolute paths, the stub path is the target root followed by the template's non-empty segment list below `emailDir`, and it resolves to exactly those segments |
| `EmailPreview.TargetUnderRoot` | packages/react-email/source/utils/generate-email-preview.ts:46 | for normalised absolute paths, every stub lies strictly below the target root |
| `EmailPreview.TargetsDistinct` | packages/react-email/source/utils/generate-email-preview.ts:46 | for normalised absolute paths, two templates get the same stub path if and only if they are the same template |
| `EmailPreview.GlobTargetsDistinct` | packages/react-email/source/utils/generate-email-preview.ts:33-46 | when all paths are normalised and absolute (`CanonicalRun`), no two templates in the glob's list share a stub path |
| `EmailPreview.StubsUnderRoot` | packages/react-email/source/utils/generate-email-preview.ts:44-54 | under `CanonicalRun`, every file the loop writes lies below the target root |
| `EmailPreview.StubsValue` | packages/react-email/source/utils/generate-email-preview.ts:53-54 | when no two templates share a stub path, each template's stub path holds that template's stub text |
| `EmailPreview.PreviewsExact` | packages/react-email/source/utils/generate-email-preview.ts:27-55 | under `CanonicalRun`, after the run a path below the target root holds a file exactly when it is the stub path of a template the walk finds (no stale entries), and each stub holds its template's text |
| `EmailPreview.OutsideRootUntouched` | packages/react-email/source/utils/generate-email-preview.ts:27-55 | under `CanonicalRun`, files outside the target root are neither added, removed nor changed |
| `EmailPreview.PreviewsIdempotent` | packages/react-email/source/utils/generate-email-preview.ts:26-56 | for any paths, running the generator twice over the same templates gives the same files as running it once |
| `EmailPreview.StubLocation` | packages/react-email/source/utils/generate-email-preview.ts:46-47 | the stub of `dir/mid/name` is `root/mid/name`, and its `dirname` is `root/mid` |
| `EmailPreview.ImportWithExtensionShape` | packages/react-email/source/utils/generate-email-preview.ts:47-49 | before the extension is stripped, the import path is the relative path from the stub's directory to the template's directory, followed by the file name |
| `EmailPreview.TemplateExtensionFound` | packages/react-email/source/utils/generate-email-preview.ts:50 | `extname` of a template name is its `.jsx`/`.tsx` suffix |
| `EmailPreview.StripTemplateExtension` | packages/react-email/source/utils/generate-email-preview.ts:50 | when the extension text occurs only at the end, stripping it removes exactly the last four characters |
| `EmailPreview.ImportFileShape` | packages/react-email/source/utils/generate-email-preview.ts:47-50 | when the extension occurs in the import path only at its end (`ExtensionOnlyAtEnd`), the final import path is the relative path between the two directories followed by the template's name without its extension |
| `EmailPreview.ImportResolvesToTemplate` | packages/react-email/source/utils/generate-email-preview.ts:47-50 | joining the stub's directory with its import path gives the template's path without its extension (import round trip) |
| `EmailPreview.ExtensionStrippedTooEarly` | packages/react-email/source/utils/generate-email-preview.ts:50 | when a directory name holds the template's extension followed by more dot-free text (`/e/a.tsxd/b.tsx`), the first-occurrence `replace` strips it there. The stub then imports `../../e/ad/b.tsx`, which names a different file than the template. The directory name is not itself a template name, so glob does not list it and nothing stops the run before this stub is written |
| `EmailPreview.SourceCodeShape` | packages/react-email/source/utils/generate-email-preview.ts:52 | for an import path without `;`, the stub text is exactly `import Mail from '<path>';`, a line break, then `export default Mail;` |
| `EmailPreview.SourceCodeSemicolonInPath` | packages/react-email/source/utils/generate-email-preview.ts:52 | for an import path that holds a `;`, the line break goes after that first `;`, inside the quoted path |
| `EmailPreview.StaticCopyOutcome` | packages/react-email/source/utils/generate-email-preview.ts:72-78 | an error exactly when the copy's status code is positive; its message starts with the fixed prefix, followed by `<emailDir>/static` and `, `, and ends with the copy's own output |
| `JsString.ReplaceFirst` | packages/react-email/source/utils/generate-email-preview.ts:50 | no contract: a string-pattern `replace` (also lines 46 and 52) as `indexOf` then one splice; `ReplaceFirstAt`, `ReplacePrefix` and `RemoveSuffix` prove which occurrence it rewrites |
| `JsString.Last` | packages/react-email/source/utils/generate-email-preview.ts:45 | no contract: `pop()` as a value, the last element; `FileNameIsLastSegment` uses it |
| `JsString.IndexOfFrom` | packages/react-email/source/utils/generate-email-preview.ts:46 | `indexOf` returns the first index at or after the start where the pattern occurs, or -1 when there is none |
| `JsString.ReplaceFirstAt` | packages/react-email/source/utils/generate-email-preview.ts:50 | `replace` with a string pattern rewrites the first occurrence and nothing else |
| `JsString.ReplacePrefix` | packages/react-email/source/utils/generate-email-preview.ts:46 | removing a pattern that starts the string leaves the rest |
| `JsString.RemoveSuffix` | packages/react-email/source/utils/generate-email-preview.ts:50 | removing a pattern that occurs only as the suffix strips that suffix |
| `JsString.ReplaceFirstCharAfter` | packages/react-email/source/utils/generate-email-preview.ts:52 | replacing a character rewrites its first occurrence, the one just past a prefix that lacks it |
| `JsString.Split` | packages/react-email/source/utils/generate-email-preview.ts:45 | `split` never returns an empty array, so `pop()` always has an element, and no piece holds the separator |
| `JsString.SplitJoin` | packages/react-email/source/utils/generate-email-preview.ts:45 | joining separator-free pieces and splitting again gives the pieces back |
| `JsString.JoinSplit` | packages/react-email/source/utils/generate-email-preview.ts:45 | splitting and joining again gives the string back |
| `PosixPath.Normalize` | packages/react-email/source/utils/generate-email-preview.ts:46 | no contract: Node's `normalize` through the `Norm` fold (`.` and empty parts dropped, `..` pops or climbs); `NormalizeRender` and `JoinClimbDescend` state its effect |
| `PosixPath.Join` | packages/react-email/source/utils/generate-email-preview.ts:46 | no contract: Node's two-argument `join` (also line 49), empty arguments skipped; `JoinClimbDescend` and `RelativeRoundTrip` state its effect |
| `PosixPath.Dirname` | packages/react-email/source/utils/generate-email-preview.ts:47 | no contract: Node's right-to-left `dirname` scan; `DirnameRender` states its effect |
| `PosixPath.Relative` | packages/react-email/source/utils/generate-email-preview.ts:47 | no contract: Node's `relative` on resolved paths; `RelativeRender` and `RelativeRoundTrip` state its effect |
| `PosixPath.Extname` | packages/react-email/source/utils/generate-email-preview.ts:50 | no contract: Node's `extname` (trailing `/` dropped, base name, last dot not leading); `ExtnameOfJoin` and `TemplateExtensionFound` state its effect |
| `PosixPath.NormalizeRender` | packages/react-email/source/utils/generate-email-preview.ts:46 | `path.join`'s normalisation leaves a normalised absolute path unchanged |
| `PosixPath.JoinClimbDescend` | packages/react-email/source/utils/generate-email-preview.ts:49 | joining an absolute path with `u` times `..` followed by segments removes `u` segments and appends the new ones |
| `PosixPath.DirnameRender` | packages/react-email/source/utils/generate-email-preview.ts:47 | `dirname` of an absolute normalised path drops its last segment |
| `PosixPath.CommonPrefixLength` | packages/react-email/source/utils/generate-email-preview.ts:47 | the result is the length of the longest common prefix: the prefixes agree and the next segments differ |
| `PosixPath.RelativeRender` | packages/react-email/source/utils/generate-email-preview.ts:47 | `relative` between two absolute normalised paths is one `..` per segment of `from` past the common prefix, then the rest of `to` |
| `PosixPath.RelativeRoundTrip` | packages/react-email/source/utils/generate-email-preview.ts:47 | joining `from` with `relative(from, to)` gives `to` |
| `PosixPath.LastIndexOfChar` | packages/react-email/source/utils/generate-email-preview.ts:50 | the index of the last occurrence of the character, or -1 when it does not occur |
| `PosixPath.ExtnameOfJoin` | packages/react-email/source/utils/generate-email-preview.ts:50 | `extname` of a relative path ending in a name is the extension of that name |

## Left out

- `generateEmailsPreview` (lines 10-24) is not modelled. It only drives a spinner and logs a caught error.
- `fs.existsSync`, `fs.promises.rm`, `fse.ensureDir` and `fse.writeFile` are modelled only through the file table, with these limits:
  - Directories are not represented. "The directory exists" is read as "some file lies at or below it".
  - `ensureDir` (line 53) has no effect in the model.
  - Failed removals, failed writes and the exceptions they raise are not modelled.
- glob's directory walk (line 33) is the input `walk`. Only its pattern is modelled: brace expansion, `**` at any depth, and the default that hidden names do not match. Symbolic links, glob's ordering and case sensitivity are not modelled.
  - `walk` stands for glob's walk of the disk after the wipe. Nothing in the model ties it to `files`.
  - Without `nodir`, glob also lists a directory whose name matches `*.{jsx,tsx}`. The model treats every listed path as a file and writes a stub for it, where on disk the later `ensureDir` below that path fails and the run throws.
- `createStaticFiles` (lines 58-80) is left out except for the status check (lines 72-78):
  - The public directory's removal and re-creation and the `shell.cp` copy are foreign calls.
  - `result.cat()` is the parameter `diagnostic`.
- `async`/`await` sequencing is not modelled. The writes happen one after another in list order, as the `for` loop awaits each one.
- `path` is Node's POSIX variant throughout. Windows separators and drive letters are not modelled.
- `Resolve` (used by `path.relative`, by the removal and by the glob match `MatchesTemplatePattern`) treats a relative path as if the working directory were `/`. Node resolves a relative path, such as a relative `emailDir`, against the process's working directory, which the model does not have.
- `extname` first drops trailing `/` characters and then takes the base name. The import paths it is applied to never end in `/`.
- JavaScript's `$` replacement patterns in `replace` are not modelled. The generator's replacement texts (`''` and `';\n'`) contain no `$`.
- `EmailPreview.ImportResolvesToTemplate`: proved only when the extension text occurs in the import path only as its suffix (`ExtensionOnlyAtEnd`). The source's first-occurrence `replace` (line 50) needs that; `EmailPreview.ExtensionStrippedTooEarly` proves what happens otherwise.
- `EmailPreview.ImportFileShape`: proved only under `ExtensionOnlyAtEnd`, for the same reason. Without it the import path loses an earlier `.jsx`/`.tsx` instead of its own extension.
- `EmailPreview.StripTemplateExtension`: proved only under `ExtensionOnlyAtEnd`, for the same reason.
- `EmailPreview.MirrorCanonical`: stated only for normalised absolute paths (`CanonicalRun` in the lemmas below). glob's `absolute` option and the fixed target root yield such paths; an `emailDir` passed with a trailing `/`, or one the caller did not normalise, is not covered.
- `EmailPreview.TargetUnderRoot`: proved only when the target root, `emailDir` and the template path are normalised absolute paths. glob's `absolute` option and the fixed target root yield such paths; an `emailDir` passed with a trailing `/`, or one the caller did not normalise, is not covered.
- `EmailPreview.TargetsDistinct`: proved only when the target root, `emailDir` and both template paths are normalised absolute paths. glob's `absolute` option and the fixed target root yield such paths; an `emailDir` passed with a trailing `/`, or one the caller did not normalise, is not covered.
- `EmailPreview.GlobTargetsDistinct`: proved only under `CanonicalRun` (target root, `emailDir` and every walked path normalised and absolute). glob's `absolute` option and the fixed target root yield such paths; an `emailDir` passed with a trailing `/`, or one the caller did not normalise, is not covered.
- `EmailPreview.StubsUnderRoot`: proved only under `CanonicalRun`. glob's `absolute` option and the fixed target root yield such paths; an `emailDir` passed with a trailing `/`, or one the caller did not normalise, is not covered.
- `EmailPreview.PreviewsExact`: proved only under `CanonicalRun`. glob's `absolute` option and the fixed target root yield such paths; an `emailDir` passed with a trailing `/`, or one the caller did not normalise, is not covered.
- `EmailPreview.OutsideRootUntouched`: proved only under `CanonicalRun`. glob's `absolute` option and the fixed target root yield such paths; an `emailDir` passed with a trailing `/`, or one the caller did not normalise, is not covered.
- `EmailPreview.ImportResolvesToTemplate` resolves the import path with `path.join`, not with a bundler's module resolution. A stub in the template's own directory gets a bare specifier such as `welcome`, which a bundler would look up as a package.
