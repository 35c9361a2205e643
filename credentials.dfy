/**
 * What `on_generate_qr` decides once the three form fields are read: reject the
 * request, or build the credential payload and the path of its image file.
 */
module Credentials {
  import opened Text
  import opened Sanitizer

  datatype Result<T, E> = Ok(value: T) | Err(error: E)

  /** The request was rejected because a form field was left empty. */
  datatype GenerateError = MissingField

  /** A credential: the text encoded in the image, and where the image is saved. */
  datatype Credential = Credential(payload: string, imagePath: string)

  /** The fixed template of the payload, with the three fields inserted verbatim. */
  function Payload(name: string, id: string, email: string): string {
    "Evento: Persona: " + name + ", ID: " + id + ", Correo: " + email
  }

  /** The image path: the sanitised name inside the `assets` directory. */
  function ImagePath(cc: CharClass, name: string): string {
    "assets/" + Sanitize(cc, name) + "_qr_code.png"
  }

  /**
   * The decision of main.py:133-144: an empty field rejects the request (Python's
   * `not field` is true only of the empty string), otherwise the payload and the
   * path are built.
   */
  function Generate(cc: CharClass, name: string, id: string, email: string)
    : (r: Result<Credential, GenerateError>)
    ensures r.Err? <==> name == [] || id == [] || email == []
    ensures r.Err? ==> r.error == MissingField
    ensures r.Ok? ==> r.value == Credential(Payload(name, id, email), ImagePath(cc, name))
  {
    if name == [] || id == [] || email == [] then Err(MissingField)
    else Ok(Credential(Payload(name, id, email), ImagePath(cc, name)))
  }

  /**
   * The image files on disk, each path mapped to the payload its image encodes. The
   * renderer itself is opaque; an image stands for the payload it was made from.
   */
  type Artifacts = map<string, string>

  /**
   * The effect of a press of the generate button on the image files: nothing is written
   * when a field is empty; otherwise one file is written at the credential's path,
   * replacing whatever was there, and no other file changes.
   */
  function Issue(cc: CharClass, files: Artifacts, name: string, id: string, email: string)
    : (r: Artifacts)
    ensures name == [] || id == [] || email == [] ==> r == files
    ensures name != [] && id != [] && email != [] ==>
              && r.Keys == files.Keys + {ImagePath(cc, name)}
              && r[ImagePath(cc, name)] == Payload(name, id, email)
              && forall path :: path in files && path != ImagePath(cc, name) ==> r[path] == files[path]
  {
    if name == [] || id == [] || email == [] then files
    else files[ImagePath(cc, name) := Payload(name, id, email)]
  }

  /** Whitespace-only fields are not empty, so the request goes through. */
  lemma BlankFieldsAccepted(cc: CharClass, name: string, id: string, email: string)
    requires cc.Valid()
    requires forall i :: 0 <= i < |name| ==> cc.isSpace(name[i])
    requires forall i :: 0 <= i < |id| ==> cc.isSpace(id[i])
    requires forall i :: 0 <= i < |email| ==> cc.isSpace(email[i])
    requires name != [] && id != [] && email != []
    ensures Generate(cc, name, id, email).Ok?
    ensures Generate(cc, name, id, email).value.imagePath == "assets/_qr_code.png"
  {
    KeepAllKept(cc, name);
    assert TrimEnd(cc, name) == [];
    assert Sanitize(cc, name) == [];
  }

  /** The payload starts with the fixed prefix and the name, and ends with the email. */
  lemma PayloadFraming(name: string, id: string, email: string)
    ensures var p := Payload(name, id, email);
            && p[..17 + |name|] == "Evento: Persona: " + name
            && p[|p| - |email|..] == email
  {
    var head := "Evento: Persona: " + name;
    var p := Payload(name, id, email);
    assert p == head + (", ID: " + id + ", Correo: " + email);
    assert p == (head + ", ID: " + id + ", Correo: ") + email;
  }

  /**
   * Whether a request is accepted, and the payload it gets, do not depend on how the
   * name is sanitised: any two character classes agree on both.
   */
  lemma PayloadIndependentOfSanitising(cc1: CharClass, cc2: CharClass, name: string, id: string, email: string)
    ensures Generate(cc1, name, id, email).Ok? == Generate(cc2, name, id, email).Ok?
    ensures Generate(cc1, name, id, email).Ok? ==>
              Generate(cc1, name, id, email).value.payload == Generate(cc2, name, id, email).value.payload
  {
  }

  /**
   * The template escapes nothing, so the payload does not identify the attendee:
   * a name holding `", ID: "` collides with a shorter name and a longer ID.
   */
  lemma PayloadAmbiguous()
    ensures Payload("A, ID: 1", "2", "e") == Payload("A", "1, ID: 2", "e")
  {
  }

  /**
   * Two attendees whose names differ only by a trailing space get the same image
   * path, so the second request replaces the first one's image.
   */
  lemma SecondIssueOverwrites(cc: CharClass, files: Artifacts, name: string,
                              id1: string, email1: string, id2: string, email2: string)
    requires cc.Valid()
    requires name != [] && id1 != [] && email1 != [] && id2 != [] && email2 != []
    ensures var after := Issue(cc, Issue(cc, files, name, id1, email1), name + " ", id2, email2);
            && after.Keys == files.Keys + {ImagePath(cc, name)}
            && after[ImagePath(cc, name)] == Payload(name + " ", id2, email2)
  {
    SanitizeIgnoresTrailingSpace(cc, name);
  }
}
