/** How the registry-driven validator of src/FileValidator.ts, after
    `initialize`, relates to the hard-coded check of `validateFile` in
    src/App.tsx. */
module Agreement {
  import opened Validation
  import FileValidator
  import App

  /** The table every `FileValidator.validate` call sees once the module is
      loaded. */
  function InitialTable(): (table: map<string, seq<int>>)
    ensures FileValidator.WellFormed(table)
    ensures table.Keys == {"image/png", "image/jpg", "application/pdf"}
  {
    FileValidator.Initialized(map[])
  }

  /** JPEG is checked alike by both, only under different keys: `image/jpg`
      in the registry, `image/jpeg` in `validateFile`. */
  lemma JpegAgreement(buf: seq<Byte>)
    ensures App.ValidateFile(buf, ["image/jpeg"]).Accepted? <==>
            FileValidator.Accepts(InitialTable(), buf, ["image/jpg"])
  {
    var table := InitialTable();
    if App.ValidateFile(buf, ["image/jpeg"]).Accepted? {
      assert FileValidator.Matches(table, ["image/jpg"][0], buf);
    }
  }

  /** On a buffer of exactly four bytes the registry's head-and-tail reading
      of the PNG and PDF signatures coincides with the prefix check of
      `validateFile`. */
  lemma FourByteBuffersAgree(buf: seq<Byte>)
    requires |buf| == 4
    ensures FileValidator.Accepts(InitialTable(), buf, ["image/png"]) <==>
            App.ValidateFile(buf, ["image/png"]).Accepted?
    ensures FileValidator.Accepts(InitialTable(), buf, ["application/pdf"]) <==>
            App.ValidateFile(buf, ["application/pdf"]).Accepted?
  {
    var table := InitialTable();
    if buf == App.PngHeader {
      assert FileValidator.Matches(table, ["image/png"][0], buf);
    }
    if buf == App.PdfHeader {
      assert FileValidator.Matches(table, ["application/pdf"][0], buf);
    }
    if FileValidator.Accepts(table, buf, ["image/png"]) {
      assert FileValidator.Matches(table, "image/png", buf);
      assert buf[..4] == buf == App.PngHeader;
    }
    if FileValidator.Accepts(table, buf, ["application/pdf"]) {
      assert FileValidator.Matches(table, "application/pdf", buf);
      assert buf[..4] == buf == App.PdfHeader;
    }
  }

  /** A PNG file's own header `89 50 4E 47 0D 0A 1A 0A` followed by the last
      bytes of its closing chunk `AE 42 60 82` passes `validateFile` as PNG
      but fails the registry's PNG entry, which wants `4E 47` at the end. */
  lemma PngFileDisagreement()
    ensures var buf := [0x89, 0x50, 0x4E, 0x47, 0x0D, 0x0A, 0x1A, 0x0A, 0xAE, 0x42, 0x60, 0x82];
            App.ValidateFile(buf, ["image/png"]) == Accepted &&
            FileValidator.Accepts(InitialTable(), buf, ["image/png"]) == false
  {
    var buf: seq<Byte> := [0x89, 0x50, 0x4E, 0x47, 0x0D, 0x0A, 0x1A, 0x0A, 0xAE, 0x42, 0x60, 0x82];
    assert buf[..4] == App.PngHeader;
    assert App.TypeCheck(["image/png"][0], buf);
  }

  /** A PDF file's own header `%PDF-1.4` followed by its closing `%%EOF` and a
      line feed passes `validateFile` as PDF but fails the registry's PDF
      entry, which wants `44 46` at the end. */
  lemma PdfFileDisagreement()
    ensures var buf := [0x25, 0x50, 0x44, 0x46, 0x2D, 0x31, 0x2E, 0x34,
                        0x25, 0x25, 0x45, 0x4F, 0x46, 0x0A];
            App.ValidateFile(buf, ["application/pdf"]) == Accepted &&
            FileValidator.Accepts(InitialTable(), buf, ["application/pdf"]) == false
  {
    var buf: seq<Byte> := [0x25, 0x50, 0x44, 0x46, 0x2D, 0x31, 0x2E, 0x34,
                           0x25, 0x25, 0x45, 0x4F, 0x46, 0x0A];
    assert buf[..4] == App.PdfHeader;
    assert App.TypeCheck(["application/pdf"][0], buf);
  }

  /** Conversely, the bytes `89 50 00 4E 47` pass the registry's PNG entry
      and fail `validateFile`'s PNG check. */
  lemma HeadTailDisagreement()
    ensures var buf := [0x89, 0x50, 0x00, 0x4E, 0x47];
            FileValidator.Accepts(InitialTable(), buf, ["image/png"]) &&
            App.ValidateFile(buf, ["image/png"]) == Rejected(App.ContentMismatch)
  {
    var buf: seq<Byte> := [0x89, 0x50, 0x00, 0x4E, 0x47];
    assert buf[..4] != App.PngHeader by {
      assert buf[..4][2] == 0x00;
    }
    assert FileValidator.Matches(InitialTable(), ["image/png"][0], buf);
  }
}
