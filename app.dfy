/** The upload validator of the character-upload web application: the
    extension allow-list, `allowed_file`, and the order of decisions taken
    by the `POST /upload_personnage` handler. The web framework, the
    filesystem and `secure_filename` stay outside: the save's result and the
    `nom` form field are part of the request, and `secure_filename` is a
    function parameter about which nothing is assumed. */
module App {
  import opened PyStr

  datatype Option<T> = None | Some(value: T)

  /** `ALLOWED_EXTENSIONS`. */
  const ALLOWED_EXTENSIONS: set<string> := {"png", "jpg", "jpeg", "gif"}

  /** The allow-list holds four extensions, each of three or four characters,
      none holding a dot, each already in lower case (so a lower-cased
      suffix can equal any of them). */
  lemma AllowedExtensionsShape()
    ensures |ALLOWED_EXTENSIONS| == 4
    ensures forall e :: e in ALLOWED_EXTENSIONS ==> 3 <= |e| <= 4 && '.' !in e && Lower(e) == e
  {
  }

  /** `allowed_file(filename)`: the name holds a dot and the text after its
      last dot, lower-cased, is an allowed extension. */
  function AllowedFile(filename: string): (ok: bool)
    ensures ok ==> '.' in filename
    ensures ok ==> 4 <= |filename|
  {
    '.' in filename && Lower(RSplitOnce(filename, '.')[1]) in ALLOWED_EXTENSIONS
  }

  /** Reference definition: some dot of the name is its last one and the
      text after it, lower-cased, is an allowed extension. */
  ghost predicate HasAllowedExtension(filename: string) {
    exists i :: 0 <= i < |filename| && filename[i] == '.' && '.' !in filename[i + 1..]
      && Lower(filename[i + 1..]) in ALLOWED_EXTENSIONS
  }

  /** Only the text after the last dot decides, whatever the text before it
      holds (further dots included). */
  lemma AllowedFileLastSuffix(stem: string, ext: string)
    requires '.' !in ext
    ensures AllowedFile(stem + ['.'] + ext) <==> Lower(ext) in ALLOWED_EXTENSIONS
  {
    RSplitOnceUnique(stem + ['.'] + ext, '.', stem, ext);
  }

  /** An accepted name has the shape `HasAllowedExtension` describes. */
  lemma AllowedFileSound(filename: string)
    requires AllowedFile(filename)
    ensures HasAllowedExtension(filename)
  {
    var parts := RSplitOnce(filename, '.');
    var i := |parts[0]|;
    assert filename[i + 1..] == parts[1];
    assert filename[i] == '.';
  }

  /** A name of the shape `HasAllowedExtension` describes is accepted. */
  lemma AllowedFileComplete(filename: string)
    requires HasAllowedExtension(filename)
    ensures AllowedFile(filename)
  {
    var i :| 0 <= i < |filename| && filename[i] == '.' && '.' !in filename[i + 1..]
      && Lower(filename[i + 1..]) in ALLOWED_EXTENSIONS;
    assert filename == filename[..i] + ['.'] + filename[i + 1..];
    AllowedFileLastSuffix(filename[..i], filename[i + 1..]);
  }

  /** `AllowedFile` accepts exactly the names `HasAllowedExtension` describes. */
  lemma AllowedFileSpec(filename: string)
    ensures AllowedFile(filename) <==> HasAllowedExtension(filename)
  {
    if AllowedFile(filename) { AllowedFileSound(filename); }
    if HasAllowedExtension(filename) { AllowedFileComplete(filename); }
  }

  /** A name ending in a dot has an empty extension and is rejected. */
  lemma TrailingDotRejected(stem: string)
    ensures !AllowedFile(stem + ['.'])
  {
  }

  /** The check ignores letter case: lower-casing the whole name keeps the verdict. */
  lemma AllowedFileLower(filename: string)
    ensures AllowedFile(Lower(filename)) == AllowedFile(filename)
  {
    LowerKeepsNonLetter(filename, '.');
    if '.' in filename {
      RSplitOnceLower(filename, '.');
      LowerIdempotent(RSplitOnce(filename, '.')[1]);
    }
  }

  /** Two names that differ only in letter case get the same verdict. */
  lemma AllowedFileCaseInsensitive(f: string, g: string)
    requires Lower(f) == Lower(g)
    ensures AllowedFile(f) == AllowedFile(g)
  {
    AllowedFileLower(f);
    AllowedFileLower(g);
  }

  /** Only the last dot counts: a doubled extension is judged by its last part. */
  lemma LastDotExamples()
    ensures !AllowedFile("photo.png.exe")
    ensures AllowedFile("archive.tar.png")
  {
    assert "exe"[0] != '.' && "exe"[1] != '.' && "exe"[2] != '.';
    assert Lower("exe") == "exe";
    assert "photo.png.exe" == "photo.png" + ['.'] + "exe";
    AllowedFileLastSuffix("photo.png", "exe");
    assert "png"[0] != '.' && "png"[1] != '.' && "png"[2] != '.';
    assert Lower("png") == "png";
    assert "archive.tar.png" == "archive.tar" + ['.'] + "png";
    AllowedFileLastSuffix("archive.tar", "png");
  }

  /** Upper-case and mixed-case extensions are accepted. */
  lemma CaseExamples()
    ensures AllowedFile("X.PNG")
    ensures AllowedFile("x.JpEg")
  {
    assert Lower("PNG") == "png";
    assert "X.PNG" == "X" + ['.'] + "PNG";
    AllowedFileLastSuffix("X", "PNG");
    assert Lower("JpEg") == "jpeg";
    assert "x.JpEg" == "x" + ['.'] + "JpEg";
    AllowedFileLastSuffix("x", "JpEg");
  }

  /** A bare extension with a leading dot is accepted; a name without a dot,
      or with nothing after its last dot, is not. */
  lemma EdgeExamples()
    ensures AllowedFile(".gif")
    ensures !AllowedFile("png")
    ensures !AllowedFile("image.")
  {
    assert "gif"[0] != '.' && "gif"[1] != '.' && "gif"[2] != '.';
    assert Lower("gif") == "gif";
    assert ".gif" == [] + ['.'] + "gif";
    AllowedFileLastSuffix([], "gif");
    assert "png"[0] != '.' && "png"[1] != '.' && "png"[2] != '.';
    assert "image." == "image" + ['.'];
    TrailingDotRejected("image");
  }

  // ---------------------------------------------------------------------
  // The POST /upload_personnage handler

  /** What `file.save` reports when it is called: success, or the text of the
      exception it raised. */
  datatype SaveResult = SaveOk | SaveFailed(error: string)

  /** The parts of the request the handler looks at. `hasImage` says whether
      the multipart body carries an `image` part, `filename` is that part's
      file name, `nom` the `nom` form field, and `save` what saving the file
      would report. */
  datatype Request = Request(hasImage: bool, filename: string, nom: string, save: SaveResult)

  /** The handler's outcomes. The last two carry the sanitized name that the
      save path was built from. */
  datatype Outcome =
    | NoFileSent
    | NoFileSelected
    | FormatNotAllowed
    | SaveError(target: string, error: string)
    | Added(target: string, nom: string)
  {
    /** The HTTP status code of the response: 400 exactly for the outcomes
        that saved nothing, 500 only for a failed save. */
    function Status(): (code: int)
      ensures code in {200, 400, 500}
      ensures code == 400 <==> SaveTarget().None?
      ensures code == 500 <==> SaveError?
    {
      match this
      case NoFileSent => 400
      case NoFileSelected => 400
      case FormatNotAllowed => 400
      case SaveError(_, _) => 500
      case Added(_, _) => 200
    }

    /** The text of the response: one of three fixed messages for a refusal,
        the exception text at the end of a save error, and the character's
        name between quotes in the success message. */
    function Body(): (text: string)
      ensures SaveTarget().None? ==>
                text in {"Aucun fichier envoyé", "Aucun fichier sélectionné", "Format de fichier non autorisé"}
      ensures SaveError? ==> |error| <= |text| && text[|text| - |error|..] == error
      ensures Added? ==> 13 + |nom| <= |text| && text[12..12 + |nom|] == nom
                         && text[11] == '\'' && text[12 + |nom|] == '\''
    {
      match this
      case NoFileSent => "Aucun fichier envoyé"
      case NoFileSelected => "Aucun fichier sélectionné"
      case FormatNotAllowed => "Format de fichier non autorisé"
      case SaveError(_, e) => "Erreur lors de la sauvegarde du fichier : " + e
      case Added(_, nom) => "Personnage '" + nom + "' ajouté avec succès !"
    }

    /** The sanitized name that the save path was built from, if the save
        was attempted. */
    function SaveTarget(): Option<string> {
      match this
      case SaveError(t, _) => Some(t)
      case Added(t, _) => Some(t)
      case _ => None
    }
  }

  /** The truth value of an uploaded-file object, which is that of its file
      name. Every name `AllowedFile` accepts is truthy, so this conjunct never
      changes the handler's decision. */
  predicate FileIsTruthy(filename: string)
    ensures FileIsTruthy(filename) ==> 1 <= |filename|
    ensures AllowedFile(filename) ==> FileIsTruthy(filename)
  {
    filename != ""
  }

  /** `upload_personnage`, with `secure` standing for `secure_filename`. */
  function UploadPersonnage(req: Request, secure: string -> string): (r: Outcome)
    ensures r.Status() == 400 <==> !(req.hasImage && AllowedFile(req.filename))
    ensures r.SaveTarget().Some? <==> req.hasImage && AllowedFile(req.filename)
    ensures r.SaveTarget().Some? ==> r.SaveTarget().value == secure(req.filename)
  {
    if !req.hasImage then NoFileSent
    else if req.filename == "" then NoFileSelected
    else if FileIsTruthy(req.filename) && AllowedFile(req.filename) then
      var target := secure(req.filename);
      match req.save
      case SaveFailed(e) => SaveError(target, e)
      case SaveOk => Added(target, req.nom)
    else FormatNotAllowed
  }

  /** The save is attempted exactly when the request has an image part whose
      name has an allowed extension, and then under the sanitized name. */
  lemma SaveAttemptedIff(req: Request, secure: string -> string)
    ensures UploadPersonnage(req, secure).SaveTarget().Some? <==>
              req.hasImage && req.filename != "" && HasAllowedExtension(req.filename)
    ensures UploadPersonnage(req, secure).SaveTarget().Some? ==>
              UploadPersonnage(req, secure).SaveTarget() == Some(secure(req.filename))
  {
    AllowedFileSpec(req.filename);
  }

  /** Without an `image` part the answer is 400 "Aucun fichier envoyé",
      whatever the name, the form field, the save or the sanitizer. */
  lemma NoImagePart(req: Request, secure: string -> string)
    requires !req.hasImage
    ensures UploadPersonnage(req, secure) == NoFileSent
    ensures UploadPersonnage(req, secure).Status() == 400
    ensures UploadPersonnage(req, secure).Body() == "Aucun fichier envoyé"
  {
  }

  /** An image part with an empty name gets 400 "Aucun fichier sélectionné",
      not the extension error that the empty name would also earn. */
  lemma EmptyFilename(req: Request, secure: string -> string)
    requires req.hasImage && req.filename == ""
    ensures !AllowedFile(req.filename)
    ensures UploadPersonnage(req, secure) == NoFileSelected
    ensures UploadPersonnage(req, secure).Status() == 400
    ensures UploadPersonnage(req, secure).Body() == "Aucun fichier sélectionné"
  {
  }

  /** A non-empty name with a refused extension gets 400 "Format de fichier
      non autorisé"; nothing is saved, so neither the save's result nor the
      sanitizer can change the answer. */
  lemma ExtensionRefused(req: Request, secure: string -> string, save: SaveResult, secure': string -> string)
    requires req.hasImage && req.filename != "" && !AllowedFile(req.filename)
    ensures UploadPersonnage(req, secure) == FormatNotAllowed
    ensures UploadPersonnage(req, secure).Body() == "Format de fichier non autorisé"
    ensures UploadPersonnage(req.(save := save), secure') == UploadPersonnage(req, secure)
  {
  }

  /** Once the three checks pass the file is saved under the sanitized name;
      a failed save gives 500 with the error text, a successful one 200 with
      the character's name. */
  lemma SaveDecides(req: Request, secure: string -> string)
    requires req.hasImage && AllowedFile(req.filename)
    ensures req.save.SaveFailed? ==>
              UploadPersonnage(req, secure) == SaveError(secure(req.filename), req.save.error)
              && UploadPersonnage(req, secure).Status() == 500
    ensures req.save == SaveOk ==>
              UploadPersonnage(req, secure) == Added(secure(req.filename), req.nom)
              && UploadPersonnage(req, secure).Status() == 200
  {
  }

  /** Every answer is 200, 400 or 500, and a 500 only ever follows a failed save. */
  lemma StatusClasses(req: Request, secure: string -> string)
    ensures UploadPersonnage(req, secure).Status() in {200, 400, 500}
    ensures UploadPersonnage(req, secure).Status() == 500 <==>
              req.hasImage && AllowedFile(req.filename) && req.save.SaveFailed?
  {
  }
}
