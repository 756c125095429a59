/** The magic-number validator of src/FileValidator.ts: a registry from MIME
    type to signature bytes, the byte matcher `checkMagicNumber`, and the
    acceptance loop of `validate`. */
module FileValidator {
  import opened Validation

  /** The one rejection reason of `validate` once the file has been read. */
  const FormatsNotSupported := "File formats not supported"

  /** The signatures that `initialize` registers. */
  const PngSignature: seq<int> := [0x89, 0x50, 0x4E, 0x47]
  const JpgSignature: seq<int> := [0xFF, 0xD8, 0xFF, 0xD9]
  const PdfSignature: seq<int> := [0x25, 0x50, 0x44, 0x46]

  /** `checkMagicNumber`: a 4-byte signature is read as two header bytes
      followed by two trailer bytes, a longer one as a prefix, and anything
      shorter never matches. */
  function CheckMagicNumber(buf: seq<Byte>, sig: seq<int>): (r: bool)
    ensures |sig| == 4 ==>
      (r <==> |buf| >= 2 && buf[0] == sig[0] && buf[1] == sig[1] &&
              buf[|buf| - 2] == sig[2] && buf[|buf| - 1] == sig[3])
    ensures |sig| > 4 ==> (r <==> |sig| <= |buf| && buf[..|sig|] == sig)
    ensures |sig| < 4 ==> !r
  {
    if |sig| == 4 then
      ReadIs(buf, 0, sig[0]) && ReadIs(buf, 1, sig[1]) &&
      ReadIs(buf, |buf| - 2, sig[2]) && ReadIs(buf, |buf| - 1, sig[3])
    else if |sig| > 4 then
      PrefixLemma(buf, sig);
      forall k :: 0 <= k < |sig| ==> ReadIs(buf, k, sig[k])
    else
      false
  }

  /** The `every` of the prefix case, read index by index, is a prefix test. */
  lemma PrefixLemma(buf: seq<Byte>, sig: seq<int>)
    ensures (forall k :: 0 <= k < |sig| ==> ReadIs(buf, k, sig[k])) <==>
            (|sig| <= |buf| && buf[..|sig|] == sig)
  {
    if |sig| > |buf| {
      assert !ReadIs(buf, |buf|, sig[|buf|]);
    } else if forall k :: 0 <= k < |sig| ==> ReadIs(buf, k, sig[k]) {
      assert buf[..|sig|] == sig;
    }
    if |sig| <= |buf| && buf[..|sig|] == sig {
      forall k | 0 <= k < |sig| ensures ReadIs(buf, k, sig[k]) {
        assert buf[..|sig|][k] == buf[k];
      }
    }
  }

  /** What `registerFileType` lets into the registry: no empty type, no empty
      signature. */
  predicate WellFormed(table: map<string, seq<int>>)
  {
    forall t :: t in table ==> t != "" && table[t] != []
  }

  /** The registry after `registerFileType(mimeType, magicNumber)`: invalid
      arguments leave it as it was, valid ones set (or overwrite) exactly the
      entry for `mimeType`. */
  function Register(table: map<string, seq<int>>, mimeType: string, magicNumber: seq<int>)
    : (r: map<string, seq<int>>)
    ensures mimeType == "" || magicNumber == [] ==> r == table
    ensures mimeType != "" && magicNumber != [] ==> mimeType in r && r[mimeType] == magicNumber
    ensures forall t :: t != mimeType ==> (t in r <==> t in table)
    ensures forall t :: t != mimeType && t in r ==> r[t] == table[t]
    ensures WellFormed(table) ==> WellFormed(r)
  {
    if mimeType == "" || |magicNumber| == 0 then table else table[mimeType := magicNumber]
  }

  /** The registry after `initialize`. */
  function Initialized(table: map<string, seq<int>>): (r: map<string, seq<int>>)
    ensures "image/png" in r && r["image/png"] == PngSignature
    ensures "image/jpg" in r && r["image/jpg"] == JpgSignature
    ensures "application/pdf" in r && r["application/pdf"] == PdfSignature
    ensures forall t :: t !in {"image/png", "image/jpg", "application/pdf"} ==>
      (t in r <==> t in table) && (t in r ==> r[t] == table[t])
  {
    Register(Register(Register(table, "image/png", PngSignature),
                      "image/jpg", JpgSignature),
             "application/pdf", PdfSignature)
  }

  /** One allowed type passes: it is registered and its signature matches. */
  predicate Matches(table: map<string, seq<int>>, t: string, buf: seq<Byte>)
  {
    t in table && CheckMagicNumber(buf, table[t])
  }

  /** The verdict of `validate`: some allowed type passes. */
  predicate Accepts(table: map<string, seq<int>>, buf: seq<Byte>, allowedTypes: seq<string>)
  {
    exists i :: 0 <= i < |allowedTypes| && Matches(table, allowedTypes[i], buf)
  }

  /** The static state of class `FileValidator`: its `magicNumbers` map. */
  class Registry {
    var magicNumbers: map<string, seq<int>>

    ghost predicate Valid()
      reads this
    {
      WellFormed(magicNumbers)
    }

    /** Loading the module: an empty map, then `FileValidator.initialize()`. */
    constructor ()
      ensures Valid()
      ensures magicNumbers == Initialized(map[])
    {
      magicNumbers := map[];
      new;
      Initialize();
    }

    method Initialize()
      requires Valid()
      modifies this
      ensures Valid()
      ensures magicNumbers == Initialized(old(magicNumbers))
    {
      RegisterFileType("image/png", PngSignature);
      RegisterFileType("image/jpg", JpgSignature);
      RegisterFileType("application/pdf", PdfSignature);
    }

    method RegisterFileType(mimeType: string, magicNumber: seq<int>)
      requires Valid()
      modifies this
      ensures Valid()
      ensures magicNumbers == Register(old(magicNumbers), mimeType, magicNumber)
    {
      if mimeType == "" || |magicNumber| == 0 {
        return;
      }
      magicNumbers := magicNumbers[mimeType := magicNumber];
    }

    /** The decision made once the file's bytes are read: accept at the first
        allowed type whose registered signature matches, otherwise reject. */
    method Validate(buf: seq<Byte>, allowedTypes: seq<string>) returns (v: Verdict)
      ensures v.Accepted? <==> Accepts(magicNumbers, buf, allowedTypes)
      ensures v.Rejected? ==> v.reason == FormatsNotSupported
    {
      for i := 0 to |allowedTypes|
        invariant forall j :: 0 <= j < i ==> !Matches(magicNumbers, allowedTypes[j], buf)
      {
        var t := allowedTypes[i];
        if t in magicNumbers && CheckMagicNumber(buf, magicNumbers[t]) {
          return Accepted;
        }
      }
      return Rejected(FormatsNotSupported);
    }
  }

  /** After `initialize`, the JPEG entry is the header `FF D8` plus the
      trailer `FF D9`. */
  lemma JpgEntryIsHeaderAndTrailer(buf: seq<Byte>)
    ensures Matches(Initialized(map[]), "image/jpg", buf) <==>
      |buf| >= 2 && buf[0] == 0xFF && buf[1] == 0xD8 &&
      buf[|buf| - 2] == 0xFF && buf[|buf| - 1] == 0xD9
  {
  }

  /** The verdict depends only on the set of allowed types: not on their
      order, not on duplicates. */
  lemma AcceptsDependsOnlyOnTypeSet(table: map<string, seq<int>>, buf: seq<Byte>,
                                    a: seq<string>, b: seq<string>)
    requires forall t :: t in a <==> t in b
    ensures Accepts(table, buf, a) <==> Accepts(table, buf, b)
  {
    if Accepts(table, buf, a) {
      var i :| 0 <= i < |a| && Matches(table, a[i], buf);
      assert a[i] in b;
      var j :| 0 <= j < |b| && b[j] == a[i];
    }
    if Accepts(table, buf, b) {
      var j :| 0 <= j < |b| && Matches(table, b[j], buf);
      assert b[j] in a;
      var i :| 0 <= i < |a| && a[i] == b[j];
    }
  }

  /** Allowing more types can only turn a rejection into an acceptance. */
  lemma AcceptsConcat(table: map<string, seq<int>>, buf: seq<Byte>, a: seq<string>, b: seq<string>)
    ensures Accepts(table, buf, a + b) <==> Accepts(table, buf, a) || Accepts(table, buf, b)
  {
    if Accepts(table, buf, a + b) {
      var i :| 0 <= i < |a + b| && Matches(table, (a + b)[i], buf);
      if i >= |a| {
        assert b[i - |a|] == (a + b)[i];
      }
    }
    if Accepts(table, buf, a) {
      var i :| 0 <= i < |a| && Matches(table, a[i], buf);
      assert (a + b)[i] == a[i];
    }
    if Accepts(table, buf, b) {
      var i :| 0 <= i < |b| && Matches(table, b[i], buf);
      assert (a + b)[|a| + i] == b[i];
    }
  }

  /** No registered signature fits a buffer of fewer than two bytes, so an
      empty or one-byte file is always rejected. */
  lemma ShortBufferRejected(table: map<string, seq<int>>, buf: seq<Byte>, allowedTypes: seq<string>)
    requires |buf| < 2
    ensures !Accepts(table, buf, allowedTypes)
  {
    forall i | 0 <= i < |allowedTypes| ensures !Matches(table, allowedTypes[i], buf) {
      var t := allowedTypes[i];
      if t in table && |table[t]| > 4 {
        assert |table[t]| > |buf|;
      }
    }
  }

  /** Registering a type changes no verdict for a list that does not allow
      that type. */
  lemma RegisterKeepsOtherVerdicts(table: map<string, seq<int>>, mimeType: string,
                                   magicNumber: seq<int>, buf: seq<Byte>, allowedTypes: seq<string>)
    requires mimeType !in allowedTypes
    ensures Accepts(Register(table, mimeType, magicNumber), buf, allowedTypes) <==>
            Accepts(table, buf, allowedTypes)
  {
    var r := Register(table, mimeType, magicNumber);
    forall i | 0 <= i < |allowedTypes|
      ensures Matches(r, allowedTypes[i], buf) <==> Matches(table, allowedTypes[i], buf)
    {
      assert allowedTypes[i] != mimeType;
    }
  }

  /** After `initialize`, the key `image/jpeg` (the one src/App.tsx uses) is
      not registered, so a list allowing only it rejects every file. */
  lemma JpegKeyUnregistered(buf: seq<Byte>)
    ensures !Accepts(Initialized(map[]), buf, ["image/jpeg"])
  {
    var r := Initialized(map[]);
    assert "image/jpeg" !in {"image/png", "image/jpg", "application/pdf"};
    assert "image/jpeg" !in r;
  }
}
