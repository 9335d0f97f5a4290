# Upload validator of the character-upload web application

This project models the validation step of the character-upload web
application in Dafny. The step decides whether an uploaded image is accepted.
It has three parts:

- the extension allow-list `ALLOWED_EXTENSIONS` (png, jpg, jpeg, gif);
- the predicate `allowed_file`, which accepts a file name only when it holds a
  dot and the text after its last dot, lower-cased, is on the list;
- the order of decisions in the `POST /upload_personnage` handler. It answers
  400 when there is no `image` part, 400 when the file name is empty, and 400
  when the extension is refused. Otherwise it saves the file under its
  sanitized name. A failed save gives 500 with the error text. A successful
  save gives 200 with the character's name.

The code is pure: the handler is a function and every property is a lemma.

- `pystr.dfy` (module `PyStr`) models the two Python string builtins the
  validator uses. `Lower` is `str.lower()`, restricted to ASCII letters.
  `RSplitOnce` is `str.rsplit(sep, 1)`.
- `app.dfy` (module `App`) holds the allow-list, `AllowedFile`, and a reference
  definition of it (`HasAllowedExtension`: "some dot is the last one, and the
  lower-cased text after it is allowed"). It also holds the handler
  `UploadPersonnage`, over a request record and an `Outcome` datatype.

The handler's environment is modelled as inputs:

- The request record holds whether an `image` part is present, its file name,
  the `nom` form field, and what `file.save` reports if it is called.
- `secure_filename` is a function parameter. Nothing is assumed about it.
- Each `Outcome` records the sanitized name that the save path was built from,
  if a save was attempted. This makes "no save was attempted" a statement
  about the result.

In `if file and allowed_file(file.filename)`, the truth value of the uploaded
file object is that of its file name (`FileIsTruthy`). Line 31 has already
ruled out the empty name, so this conjunct never decides anything.

## Model

| member | source | states |
|---|---|---|
| `PyStr.LowerChar` | app.py:16 | the lower-casing used on the extension leaves no upper-case ASCII letter; it shifts `A`–`Z` to `a`–`z` and leaves every other character alone |
| `PyStr.Lower` | app.py:16 | `.lower()` keeps the length, lower-cases each character in place, and leaves no upper-case ASCII letter |
| `PyStr.RSplitOnce` | app.py:16 | `rsplit('.', 1)` gives one part (the whole name) exactly when there is no dot; otherwise two parts, where the name is first + `.` + second and the second holds no dot |
| `PyStr.RSplitOnceUnique` | app.py:16 | the split is fixed by the last separator: any `a + [sep] + b` with no separator in `b` is the split returned |
| `PyStr.RSplitOnceLower` | app.py:16 | splitting at a non-letter separator commutes with lower-casing |
| `App.AllowedExtensionsShape` | app.py:13 | the allow-list holds exactly four extensions, each of three or four characters, dot-free and already lower-case |
| `App.AllowedFile` | app.py:15-16 | an accepted name contains a dot and is at least four characters long (one dot plus a three-letter extension) |
| `App.AllowedFileLastSuffix` | app.py:13-16 | for any stem, even one with dots, `stem.ext` with no dot in `ext` is accepted exactly when lower-cased `ext` is one of png, jpg, jpeg, gif |
| `App.AllowedFileSound` | app.py:13-16 | every accepted name has a last dot followed by a text whose lower-case form is on the list |
| `App.AllowedFileComplete` | app.py:13-16 | every name with a last dot followed by a text whose lower-case form is on the list is accepted |
| `App.AllowedFileSpec` | app.py:13-16 | `allowed_file` accepts exactly the names with a dot whose last-dot suffix, lower-cased, is in the allow-list |
| `App.TrailingDotRejected` | app.py:16 | a name ending in a dot (empty extension) is rejected, whatever comes before |
| `App.AllowedFileLower` | app.py:16 | lower-casing the whole name never changes the verdict |
| `App.AllowedFileCaseInsensitive` | app.py:16 | two names that agree once lower-cased get the same verdict |
| `App.LastDotExamples` | app.py:13-16 | `photo.png.exe` is rejected and `archive.tar.png` is accepted |
| `App.CaseExamples` | app.py:13-16 | `X.PNG` and `x.JpEg` are accepted |
| `App.EdgeExamples` | app.py:13-16 | `.gif` is accepted; `png` (no dot) and `image.` (trailing dot) are rejected |
| `App.Outcome.Status` | app.py:26-43 | every status is 200, 400 or 500; it is 400 exactly for the outcomes that attempted no save (lines 28, 32, 43) and 500 exactly for a failed save (line 40) |
| `App.Outcome.Body` | app.py:26-43 | a refusal answers one of the three fixed messages of lines 28, 32 and 43; a save error ends with the exception text (line 40); a success quotes the character's name (line 41) |
| `App.FileIsTruthy` | app.py:34 | the truth value of the uploaded file requires a non-empty name, and every name `allowed_file` accepts makes it true, so `file and` never changes the decision |
| `App.UploadPersonnage` | app.py:26-43 | the answer is 400 exactly when the image part is missing or its name is refused by `allowed_file`; a save is attempted exactly when neither holds, and then under `secure_filename` of the name |
| `App.SaveAttemptedIff` | app.py:34-41 | a save is attempted exactly when an image part is present, its name is non-empty and its last-dot suffix is allowed; it uses the sanitized name |
| `App.NoImagePart` | app.py:27-28 | without an `image` part the answer is 400 "Aucun fichier envoyé", whatever the other fields hold |
| `App.EmptyFilename` | app.py:30-32 | an empty file name gets 400 "Aucun fichier sélectionné" before the extension is looked at, although `allowed_file` would also refuse it |
| `App.ExtensionRefused` | app.py:34-43 | a non-empty name refused by `allowed_file` gets 400 "Format de fichier non autorisé"; the save's result and the sanitizer cannot change the answer, so nothing is saved |
| `App.SaveDecides` | app.py:34-41 | after the three checks pass, a failed save gives 500 with the error text and a successful save gives 200 with the character's name, both under the sanitized name |
| `App.StatusClasses` | app.py:26-43 | every answer is 200, 400 or 500; it is 500 exactly when the checks pass and the save fails |

## Left out

- Flask routing, `render_template`, the home page route and `app.run`
  (app.py:1, 6, 20-23, 45-47) are framework plumbing.
- `secure_filename` (app.py:3, 35) belongs to the werkzeug library. It is a
  function parameter. Nothing is assumed about its result, which is recorded
  as the save target.
- Creating the upload folder, building the path and `file.save`
  (app.py:8-10, 36-38) are filesystem I/O. Only the result of the save is
  modelled, as a request field: success, or the text of the exception.
- `MAX_CONTENT_LENGTH` (app.py:11): the body size limit is checked when
  `request.files` is first read, on app.py:27. An oversized body makes that
  line end the handler with a 413 answer. This answer is outside the model,
  so `StatusClasses`' "every answer is 200, 400 or 500" does not cover it.
- `UploadPersonnage`: a missing `nom` form field is not modelled. On
  app.py:41, `request.form['nom']` then raises a framework error after the
  file has been saved. The model always has a `nom` value.
- `PyStr.Lower`: only ASCII letters are lower-cased. Python's `str.lower()`
  applies the full Unicode case mapping, under which the only non-ASCII
  character that becomes a single ASCII letter is U+212A KELVIN SIGN (to `k`);
  U+0130 becomes `i` followed by U+0307. No allowed extension holds a `k`, so
  ASCII lower-casing gives the same `allowed_file` verdict on every string.
- `FileIsTruthy` assumes that an uploaded file object's truth value is that of
  its file name. The werkzeug `FileStorage` class is not part of this model.
- The inference client, the response extractor and the database model are not
  part of this model. The handler modelled here has none of them.
