# Upload filename check (Flask-Series, `utils.py`)

This project models the filename check of the repository's file-upload
application: the whitelist `ALLOWED_EXTENSIONS` and the predicate
`file_valid(file)`, which accepts a filename exactly when it contains a dot
and the text after its **last** dot is `png`, `jpg`, `jpeg` or `gif`,
compared by exact, case-sensitive equality.

Everything lives in module `Utils` (`utils.dfy`):

- `AllowedExtensions` is the whitelist, in the source's order.
- `LastIndexOf` finds the last occurrence of a character.
- `RSplitOnce` is Python's `str.rsplit(sep, 1)` for a one-character separator. It gives `[s]` when the separator is absent, and otherwise the text before and the text after the last separator.
- `FileValid` is `file_valid`. The dot test guards the index `[1]` into the split result, as Python's short-circuiting `and` does.
- `HasAllowedSuffix` is an independent reference definition: the name ends in `"."` followed by a whitelisted extension.

The function has no precondition. The verifier proves that the index into
the split result is always in range, so the check never fails on any string.
It takes only the filename, so the upload folder constant cannot affect it.

## Model

| member | source | states |
|---|---|---|
| `Utils.LastIndexOf` | utils.py:6 | returns None exactly when the character is absent; otherwise an in-range position holding the character with no occurrence after it (the last one) |
| `Utils.RSplitOnce` | utils.py:5-6 | one part exactly when the separator is absent (the whole string), two parts exactly when it is present; the two parts rejoined with the separator give the input back and the right part holds no separator, so indexing part 1 after the `'.' in file` test can never fail |
| `Utils.RSplitOnceOfJoin` | utils.py:6 | splitting `stem + sep + ext` with a separator-free `ext` yields exactly `[stem, ext]`: the split is at the last separator, whatever the stem contains |
| `Utils.AllowedExtensionsHaveNoDot` | utils.py:1 | no whitelisted extension contains a dot |
| `Utils.AllowedExtensionsAreLowerCase` | utils.py:1 | every whitelisted extension is spelled in lower-case ASCII letters |
| `Utils.FileValidOfJoin` | utils.py:4-6 | a name `stem + "." + ext` with a dot-free `ext` is accepted if and only if `ext` is in the whitelist; the stem plays no part |
| `Utils.NoDotRejected` | utils.py:5 | a filename containing no dot is rejected |
| `Utils.FileValidIffLastExtensionAllowed` | utils.py:1-6 | accepted if and only if there is a dot with no dot after it whose following text is a whitelisted extension |
| `Utils.FileValidIffAllowedSuffix` | utils.py:1-6 | accepted if and only if the name ends with `".png"`, `".jpg"`, `".jpeg"` or `".gif"` (both directions) |
| `Utils.TrailingDotRejected` | utils.py:6 | any name ending in a dot has an empty extension and is rejected |
| `Utils.UpperCaseExtensionRejected` | utils.py:1-6 | matching is case-sensitive: a last extension with any upper-case ASCII letter is rejected, whatever the stem |
| `Utils.BareExtensionAccepted` | utils.py:5-6 | no stem is needed: `".png"` and `".gif"` are accepted |
| `Utils.OnlyLastExtensionExamined` | utils.py:6 | `"a.png.exe"` is rejected and `"a.exe.png"` is accepted |
| `Utils.MixedCaseExamplesRejected` | utils.py:1-6 | `"photo.PNG"` and `"photo.Jpg"` are rejected |

## Left out

- `UPLOADS_FOLDER` (utils.py:2) is only a filesystem location with no logic. Storing uploaded files there is I/O.
- connecting.py holds raw SQL run through a module-level database session, plus commits and console output. This is database I/O with no logic of its own.
- models.py holds an ORM table declaration and configuration read from the environment. Its only behaviour is a `__repr__` format string.
- app.py:5-7 holds one Flask route that returns `redirect(url_for(path_name, _external=True))`. It depends on the framework's route table, which is not part of this model. This route keeps no name-to-URL store of its own.
- static/js/index.js toggles a modal form in the browser. That is UI state, not logic.
- Filenames are sequences of Dafny `char`, which are Unicode scalar values. A Python `str` can also hold lone surrogate code points (a filename decoded with `surrogateescape`, say), and such inputs cannot be written in the model. The result would be the same for them, because only `'.'` and exact equality with the ASCII whitelist matter.
