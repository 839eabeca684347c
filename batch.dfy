/** The batch driver: handle_files converts each upload whose name ends in ".xml", names
    its spreadsheet after the part of the name before the first '.', and the page sends a
    lone ".zip" upload to handle_zip instead. */
module Batch {
  import opened Wrappers
  import opened Text
  import opened Elements
  import opened Records

  /** What ET.fromstring makes of an upload's bytes: the parsed document, or a failure
      (bytes that do not decode as UTF-8 or are not well-formed XML). */
  datatype Document = Parsed(root: Element) | Malformed

  datatype Upload = Upload(name: string, document: Document)

  /** One produced spreadsheet: its file name and the rows handed to the spreadsheet writer. */
  datatype Artifact = Artifact(name: string, rows: seq<Record>)

  /** The exception that escapes handle_files. The file name is the model's record of which
      upload raised it; the Python exception itself does not carry the name. */
  datatype ConversionError = ParseError(fileName: string)

  /** file.name.endswith('.xml') */
  predicate IsXmlName(name: string) {
    EndsWith(name, ".xml")
  }

  /** to_excel's name for the spreadsheet of upload `name`: name.split('.')[0] + ".xlsx".
      Everything from the first '.' on is dropped, not just the extension. */
  function OutputName(name: string): (out: string)
    ensures |out| >= 5 && EndsWith(out, ".xlsx")
    ensures var stem := out[..|out| - 5];
            && |stem| <= |name| && stem == name[..|stem|] && '.' !in stem
            && (|stem| < |name| ==> name[|stem|] == '.')
  {
    var stem := BeforeFirstDot(name);
    assert (stem + ".xlsx")[..|stem|] == stem;
    stem + ".xlsx"
  }

  /** An upload name with a single dot keeps its stem: "orders.xml" gives "orders.xlsx". */
  lemma OutputNameOfPlainXml(stem: string)
    requires '.' !in stem
    ensures IsXmlName(stem + ".xml") && OutputName(stem + ".xml") == stem + ".xlsx"
  {
    OutputNameIgnoresAfterFirstDot(stem, "xml");
    assert stem + "." + "xml" == stem + ".xml";
    assert (stem + ".xml")[|stem|..] == ".xml";
  }

  /** Only the text before the first dot survives: "a.v1.xml" and "a.v2.xml" both give "a.xlsx". */
  lemma {:induction false} OutputNameIgnoresAfterFirstDot(stem: string, rest: string)
    requires '.' !in stem
    ensures OutputName(stem + "." + rest) == stem + ".xlsx"
  {
    var name := stem + "." + rest;
    var out := OutputName(name);
    var k := |out| - 5;
    assert name[|stem|] == '.' && name[..|stem|] == stem;
    InPrefix(name, k, |stem|);
    InPrefix(name, |stem|, k);
    assert k == |stem|;
    assert out[..k] == stem;
    assert out == out[..k] + ".xlsx";
  }

  /** Two different uploads can be given the same spreadsheet name. */
  lemma OutputNamesCanCollide(stem: string, r1: string, r2: string)
    requires '.' !in stem && r1 != r2
    ensures stem + "." + r1 != stem + "." + r2
    ensures OutputName(stem + "." + r1) == OutputName(stem + "." + r2)
  {
    OutputNameIgnoresAfterFirstDot(stem, r1);
    OutputNameIgnoresAfterFirstDot(stem, r2);
    assert (stem + "." + r1)[|stem| + 1..] == r1;
    assert (stem + "." + r2)[|stem| + 1..] == r2;
  }

  /** The uploads handle_files converts, in upload order. */
  function XmlUploads(files: seq<Upload>): (xs: seq<Upload>)
    ensures forall f :: f in xs ==> f in files && IsXmlName(f.name)
    ensures forall f :: f in files && IsXmlName(f.name) ==> f in xs
  {
    if |files| == 0 then []
    else XmlUploads(files[..|files| - 1]) + (if IsXmlName(files[|files| - 1].name) then [files[|files| - 1]] else [])
  }

  /** Filtering keeps the upload order: the uploads of a + b are those of a, then those of b. */
  lemma {:induction false} XmlUploadsAppend(a: seq<Upload>, b: seq<Upload>)
    ensures XmlUploads(a + b) == XmlUploads(a) + XmlUploads(b)
  {
    if |b| > 0 {
      var n := |b|;
      assert (a + b)[..|a + b| - 1] == a + b[..n - 1];
      XmlUploadsAppend(a, b[..n - 1]);
    } else {
      assert a + b == a;
    }
  }

  /** A single upload is converted exactly when its name ends in ".xml". */
  lemma XmlUploadsOne(f: Upload)
    ensures XmlUploads([f]) == if IsXmlName(f.name) then [f] else []
  {
    assert [f][..0] == [];
  }

  /** outs holds one spreadsheet per upload of xs, in order, named by OutputName and holding
      the records parse_xml infers from the upload's document. */
  ghost predicate Converted(xs: seq<Upload>, outs: seq<Artifact>) {
    && |outs| == |xs|
    && forall i :: 0 <= i < |xs| ==>
         && outs[i].name == OutputName(xs[i].name)
         && xs[i].document.Parsed?
         && Infers(xs[i].document.root, outs[i].rows)
  }

  /** The uploads converted from the first i + 1 are those from the first i, plus upload i
      when its name ends in ".xml". */
  lemma XmlUploadsStep(files: seq<Upload>, i: nat)
    requires i < |files|
    ensures XmlUploads(files[..i + 1]) == XmlUploads(files[..i]) + (if IsXmlName(files[i].name) then [files[i]] else [])
  {
    assert files[..i + 1][..i] == files[..i];
  }

  /** Appending one converted upload and its spreadsheet keeps the correspondence. */
  lemma ConvertedAppend(xs: seq<Upload>, outs: seq<Artifact>, x: Upload, out: Artifact)
    requires Converted(xs, outs)
    requires out.name == OutputName(x.name) && x.document.Parsed? && Infers(x.document.root, out.rows)
    ensures Converted(xs + [x], outs + [out])
  {
  }

  /** Upload k is the first ".xml" upload whose content does not parse. */
  ghost predicate FirstMalformed(files: seq<Upload>, k: int) {
    && 0 <= k < |files| && IsXmlName(files[k].name) && files[k].document.Malformed?
    && forall j :: 0 <= j < k && IsXmlName(files[j].name) ==> files[j].document.Parsed?
  }

  /** handle_files: converts the ".xml" uploads in order and skips the rest. A parse failure
      is not caught, so the first malformed ".xml" upload aborts the whole batch. */
  method HandleFiles(files: seq<Upload>) returns (result: Result<seq<Artifact>, ConversionError>)
    ensures result.Success? <==> forall k :: 0 <= k < |files| && IsXmlName(files[k].name) ==> files[k].document.Parsed?
    ensures result.Failure? ==> exists k :: FirstMalformed(files, k) && result.error == ParseError(files[k].name)
    ensures result.Success? ==> Converted(XmlUploads(files), result.value)
  {
    var processed: seq<Artifact> := [];
    for i := 0 to |files|
      invariant forall k :: 0 <= k < i && IsXmlName(files[k].name) ==> files[k].document.Parsed?
      invariant Converted(XmlUploads(files[..i]), processed)
    {
      var file := files[i];
      XmlUploadsStep(files, i);
      if IsXmlName(file.name) {
        if file.document.Malformed? {
          assert FirstMalformed(files, i);
          return Failure(ParseError(file.name));
        }
        var records := ParseXml(file.document.root);
        ConvertedAppend(XmlUploads(files[..i]), processed, file, Artifact(OutputName(file.name), records));
        processed := processed + [Artifact(OutputName(file.name), records)];
      }
    }
    assert files[..|files|] == files;
    return Success(processed);
  }

  /** The batch's spreadsheets are determined by its uploads. */
  lemma ConvertedUnique(xs: seq<Upload>, o1: seq<Artifact>, o2: seq<Artifact>)
    requires Converted(xs, o1) && Converted(xs, o2)
    ensures o1 == o2
  {
    forall i | 0 <= i < |xs| ensures o1[i] == o2[i] {
      InfersUnique(xs[i].document.root, o1[i].rows, o2[i].rows);
    }
  }

  /** A ".zip" upload that arrives together with other files is never converted. */
  lemma ZipNotConvertedInBatch(files: seq<Upload>)
    ensures forall f :: f in XmlUploads(files) ==> !EndsWith(f.name, ".zip")
  {
    forall f | f in XmlUploads(files) ensures !EndsWith(f.name, ".zip") {
      var n := |f.name|;
      assert f.name[n - 4..][3] == 'l';
    }
  }

  /** Where the page sends the uploads. */
  datatype Route = ZipArchive | FileBatch

  /** Exactly one upload, named "*.zip", goes to handle_zip; any other non-empty list of
      uploads goes to handle_files. With no uploads the page calls neither, and the
      result here is not used. */
  function RouteFor(names: seq<string>): (r: Route)
    ensures r == ZipArchive ==> |names| == 1
    ensures |names| == 1 && EndsWith(names[0], ".zip") ==> r == ZipArchive
    ensures forall i :: 0 <= i < |names| && !EndsWith(names[i], ".zip") ==> r == FileBatch
  {
    if |names| == 1 && EndsWith(names[0], ".zip") then ZipArchive else FileBatch
  }
}
