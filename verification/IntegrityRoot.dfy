/**
  The integrity root of the rescue kernel: the build script computes it from an ELF image, and the
  kernel recomputes it from the same image before it accepts the image.

  The hash is a function of the bytes it was fed; whether a section name is UTF-8 text is a
  predicate on its bytes.  Both are arguments.
*/
module IntegrityRoot {
  import opened Wrappers
  import opened Words
  import opened Bytes

  type Digest = seq<byte>

  datatype ForgeError = ElfParseFailed | MerkleVerifyFailed

  const TEXT: seq<byte> := [46, 116, 101, 120, 116]
  const RODATA: seq<byte> := [46, 114, 111, 100, 97, 116, 97]
  const DATA: seq<byte> := [46, 100, 97, 116, 97]
  const BSS: seq<byte> := [46, 98, 115, 115]

  const HEADER_SIZE: nat := 64
  const MAX_BSS: nat := 0x400_0000
  const CHUNK: nat := 1024

  // ---------------------------------------------------------------- reading an image

  function Read(image: seq<byte>, at: nat, n: nat): nat
    requires at + n <= |image|
  {
    FromBytes(image[at..at + n])
  }

  /** The magic number, 64-bit class and little-endian encoding. */
  predicate IsElf64(image: seq<byte>)
  {
    |image| >= 64 && image[..4] == [127, 69, 76, 70] && image[4] == 2 && image[5] == 1
  }

  /** The section table: where it starts, the size and number of its headers, and the header of the names. */
  datatype Sections = Sections(start: nat, size: nat, count: nat, names: nat)

  function SectionsOf(image: seq<byte>): Sections
    requires |image| >= 64
  {
    Sections(Read(image, 40, 8), Read(image, 58, 2), Read(image, 60, 2), Read(image, 62, 2))
  }

  predicate GoodSections(s: Sections) { s.size >= HEADER_SIZE && s.count > 0 && s.names < s.count }

  /** The position of a header that lies in the image. */
  function HeaderAt(len: nat, s: Sections, index: nat): Option<nat>
  {
    if s.start + index * s.size + HEADER_SIZE > len then None else Some(s.start + index * s.size)
  }

  function Body(image: seq<byte>, header: nat): Option<seq<byte>>
    requires header + HEADER_SIZE <= |image|
  {
    var at, size := Read(image, header + 24, 8), Read(image, header + 32, 8);
    if at + size > |image| then None else Some(image[at..at + size])
  }

  function ToZero(b: seq<byte>, at: nat): Option<seq<byte>>
    decreases |b| - at
  {
    if at >= |b| then None
    else if b[at] == 0 then Some([])
    else
      var rest := ToZero(b, at + 1);
      if rest.None? then None else Some([b[at]] + rest.value)
  }

  function NameAt(names: seq<byte>, at: nat, utf8: seq<byte> -> bool): Option<seq<byte>>
  {
    var name := ToZero(names, at);
    if name.Some? && utf8(name.value) then name else None
  }

  /** The name of section `index` and the position of its header. */
  function Named(image: seq<byte>, s: Sections, names: seq<byte>, index: nat,
                 utf8: seq<byte> -> bool): (r: Option<(nat, seq<byte>)>)
    ensures r.Some? ==> r.value.0 + HEADER_SIZE <= |image|
  {
    var header := HeaderAt(|image|, s, index);
    if header.None? then None
    else
      var name := NameAt(names, Read(image, header.value, 4), utf8);
      if name.None? then None else Some((header.value, name.value))
  }

  /** The table of section names. */
  function NamesOf(image: seq<byte>): Option<seq<byte>>
    requires |image| >= 64
  {
    var s := SectionsOf(image);
    var header := HeaderAt(|image|, s, s.names);
    if !GoodSections(s) || header.None? then None else Body(image, header.value)
  }

  // ---------------------------------------------------------------- the build script

  datatype Roots = Roots(text: Option<seq<byte>>, rodata: Option<seq<byte>>)

  /** The build script's search through the first n sections; a later section replaces an earlier one. */
  function Search(image: seq<byte>, s: Sections, names: seq<byte>, n: nat, utf8: seq<byte> -> bool): Option<Roots>
  {
    if n == 0 then Some(Roots(None, None))
    else
      var before := Search(image, s, names, n - 1, utf8);
      var sec := Named(image, s, names, n - 1, utf8);
      if before.None? || sec.None? then None
      else if sec.value.1 == TEXT then
        var body := Body(image, sec.value.0);
        if body.None? then None else Some(before.value.(text := body))
      else if sec.value.1 == RODATA then
        var body := Body(image, sec.value.0);
        if body.None? then None else Some(before.value.(rodata := body))
      else before
  }

  /** The sections the build script hashes, when it accepts the image. */
  function Hashed(image: seq<byte>, utf8: seq<byte> -> bool): Option<(seq<byte>, seq<byte>)>
  {
    if !IsElf64(image) then None
    else
      var names := NamesOf(image);
      if names.None? then None
      else
        var found := Search(image, SectionsOf(image), names.value, SectionsOf(image).count, utf8);
        if found.None? || found.value.text.None? || found.value.rodata.None? then None
        else if found.value.text.value == [] || found.value.rodata.value == [] then None
        else Some((found.value.text.value, found.value.rodata.value))
  }

  function RootOf(image: seq<byte>, hash: seq<byte> -> Digest, utf8: seq<byte> -> bool): Option<Digest>
  {
    var found := Hashed(image, utf8);
    if found.None? then None else Some(hash(found.value.0 + found.value.1))
  }

  /** The build script. */
  method ComputeRoot(image: seq<byte>, hash: seq<byte> -> Digest, utf8: seq<byte> -> bool)
    returns (root: Option<Digest>)
    ensures root == RootOf(image, hash, utf8)
  {
    hide Named, Body, Read, NamesOf;
    if !IsElf64(image) {
      return None;
    }
    var s := SectionsOf(image);
    var names := NamesOf(image);
    if names.None? {
      return None;
    }
    var text, rodata := None, None;
    for i := 0 to s.count
      invariant Search(image, s, names.value, i, utf8) == Some(Roots(text, rodata))
    {
      var sec := Named(image, s, names.value, i, utf8);
      if sec.None? {
        SearchErrorStays(image, s, names.value, i + 1, s.count, utf8);
        return None;
      }
      if sec.value.1 == TEXT {
        text := Body(image, sec.value.0);
        if text.None? {
          SearchErrorStays(image, s, names.value, i + 1, s.count, utf8);
          return None;
        }
      } else if sec.value.1 == RODATA {
        rodata := Body(image, sec.value.0);
        if rodata.None? {
          SearchErrorStays(image, s, names.value, i + 1, s.count, utf8);
          return None;
        }
      }
    }
    if text.None? || rodata.None? || text.value == [] || rodata.value == [] {
      return None;
    }
    return Some(hash(text.value + rodata.value));
  }

  lemma {:induction false} SearchErrorStays(image: seq<byte>, s: Sections, names: seq<byte>, i: nat, n: nat,
                                            utf8: seq<byte> -> bool)
    requires i <= n && Search(image, s, names, i, utf8).None?
    ensures Search(image, s, names, n, utf8).None?
  {
    hide Named, Body;
    if i < n { SearchErrorStays(image, s, names, i, n - 1, utf8); }
  }

  // ---------------------------------------------------------------- what is hashed, in bytes

  /** `name` stands in the names from `at` up to the first zero. */
  ghost predicate NameStands(names: seq<byte>, at: nat, name: seq<byte>)
  {
    at + |name| < |names| && names[at..at + |name|] == name && 0 !in name && names[at + |name|] == 0
  }

  /** Section i of the table has its header in the image, and this name. */
  ghost predicate IsNamed(image: seq<byte>, s: Sections, names: seq<byte>, i: nat, name: seq<byte>)
  {
    var h := s.start + s.size * i;
    h + 64 <= |image| && NameStands(names, FromBytes(image[h..h + 4]), name)
  }

  /** The bytes of a section are those its header says, and lie in the image. */
  ghost predicate HasBody(image: seq<byte>, s: Sections, i: nat, body: seq<byte>)
  {
    var h := s.start + s.size * i;
    h + 64 <= |image|
    && var at := FromBytes(image[h + 24..h + 32]);
    at + |body| <= |image| && |body| == FromBytes(image[h + 32..h + 40]) && image[at..at + |body|] == body
  }

  /** Section i is readable: it has a name in UTF-8 and, if it is one to hash, a body. */
  ghost predicate Readable(image: seq<byte>, s: Sections, names: seq<byte>, i: nat, utf8: seq<byte> -> bool)
  {
    exists name :: IsNamed(image, s, names, i, name) && utf8(name)
                   && (name == TEXT || name == RODATA ==> exists body :: HasBody(image, s, i, body))
  }

  /** `body` is the body of the last of the first n sections with this name. */
  ghost predicate LastBody(image: seq<byte>, s: Sections, names: seq<byte>, n: nat, name: seq<byte>,
                           body: Option<seq<byte>>)
  {
    match body
    case None => forall i :: 0 <= i < n ==> !IsNamed(image, s, names, i, name)
    case Some(b) =>
      exists i :: 0 <= i < n && IsNamed(image, s, names, i, name) && HasBody(image, s, i, b)
                  && NoLater(image, s, names, i, n, name)
  }

  ghost predicate NoLater(image: seq<byte>, s: Sections, names: seq<byte>, i: nat, n: nat, name: seq<byte>)
  {
    forall j :: i < j < n ==> !IsNamed(image, s, names, j, name)
  }

  lemma {:induction false} ToZeroStands(b: seq<byte>, at: nat, name: seq<byte>)
    ensures ToZero(b, at) == Some(name) <==> NameStands(b, at, name)
    decreases |b| - at
  {
    if at < |b| && b[at] != 0 {
      if name == [] {
      } else if name[0] == b[at] {
        ToZeroStands(b, at + 1, name[1..]);
        assert name == [name[0]] + name[1..];
        if NameStands(b, at, name) { assert b[at + 1..at + |name|] == name[1..]; }
        if NameStands(b, at + 1, name[1..]) { assert b[at..at + |name|] == [b[at]] + name[1..]; }
      } else if at + |name| < |b| {
        assert b[at..at + |name|][0] == b[at];
      }
    }
  }

  lemma NamedStands(image: seq<byte>, s: Sections, names: seq<byte>, i: nat, utf8: seq<byte> -> bool, name: seq<byte>)
    ensures var r := Named(image, s, names, i, utf8);
            r.Some? && r.value.1 == name <==> IsNamed(image, s, names, i, name) && utf8(name)
    ensures Named(image, s, names, i, utf8).Some? ==> Named(image, s, names, i, utf8).value.0 == s.start + s.size * i
  {
    hide FromBytes, ToZero, NameStands;
    var h := s.start + s.size * i;
    assert i * s.size == s.size * i;
    if h + 64 <= |image| { ToZeroStands(names, FromBytes(image[h..h + 4]), name); }
  }

  lemma BodyStands(image: seq<byte>, s: Sections, i: nat, body: seq<byte>)
    requires s.start + s.size * i + 64 <= |image|
    ensures Body(image, s.start + s.size * i) == Some(body) <==> HasBody(image, s, i, body)
  {
    hide FromBytes;
  }

  lemma OneName(image: seq<byte>, s: Sections, names: seq<byte>, i: nat, a: seq<byte>, b: seq<byte>)
    requires IsNamed(image, s, names, i, a) && IsNamed(image, s, names, i, b)
    ensures a == b
  {
    hide FromBytes, NameStands;
    var h := s.start + s.size * i;
    ToZeroStands(names, FromBytes(image[h..h + 4]), a);
    ToZeroStands(names, FromBytes(image[h..h + 4]), b);
  }

  lemma ReadableStands(image: seq<byte>, s: Sections, names: seq<byte>, i: nat, utf8: seq<byte> -> bool)
    ensures var sec := Named(image, s, names, i, utf8);
            Readable(image, s, names, i, utf8) <==>
            sec.Some? && (sec.value.1 == TEXT || sec.value.1 == RODATA ==> Body(image, sec.value.0).Some?)
  {
    hide Named, Body, IsNamed, HasBody;
    var sec := Named(image, s, names, i, utf8);
    if sec.Some? {
      NamedStands(image, s, names, i, utf8, sec.value.1);
      var body := Body(image, sec.value.0);
      if body.Some? { BodyStands(image, s, i, body.value); }
    }
    if Readable(image, s, names, i, utf8) {
      var name :| IsNamed(image, s, names, i, name) && utf8(name)
                  && (name == TEXT || name == RODATA ==> exists body :: HasBody(image, s, i, body));
      NamedStands(image, s, names, i, utf8, name);
      if name == TEXT || name == RODATA {
        var body :| HasBody(image, s, i, body);
        BodyStands(image, s, i, body);
      }
    }
  }

  lemma LastBodyNext(image: seq<byte>, s: Sections, names: seq<byte>, n: nat, name: seq<byte>, body: Option<seq<byte>>,
                     here: seq<byte>)
    requires LastBody(image, s, names, n, name, body)
    ensures !IsNamed(image, s, names, n, name) ==> LastBody(image, s, names, n + 1, name, body)
    ensures IsNamed(image, s, names, n, name) && HasBody(image, s, n, here) ==>
              LastBody(image, s, names, n + 1, name, Some(here))
  {
    hide IsNamed, HasBody;
    if !IsNamed(image, s, names, n, name) && body.Some? {
      var i :| 0 <= i < n && IsNamed(image, s, names, i, name) && HasBody(image, s, i, body.value)
               && NoLater(image, s, names, i, n, name);
      assert NoLater(image, s, names, i, n + 1, name);
    }
    if IsNamed(image, s, names, n, name) { assert NoLater(image, s, names, n, n + 1, name); }
  }

  /** The search gets through exactly when every section is readable, and finds the last bodies. */
  lemma {:induction false} SearchFinds(image: seq<byte>, s: Sections, names: seq<byte>, n: nat, utf8: seq<byte> -> bool)
    ensures var r := Search(image, s, names, n, utf8);
            && (r.Some? <==> forall i :: 0 <= i < n ==> Readable(image, s, names, i, utf8))
            && (r.Some? ==> LastBody(image, s, names, n, TEXT, r.value.text)
                            && LastBody(image, s, names, n, RODATA, r.value.rodata))
  {
    hide Named, Body, IsNamed, HasBody, Readable, LastBody;
    if n == 0 {
      NoBodies(image, s, names);
    } else {
      SearchFinds(image, s, names, n - 1, utf8);
      ReadableStands(image, s, names, n - 1, utf8);
      var before, sec := Search(image, s, names, n - 1, utf8), Named(image, s, names, n - 1, utf8);
      if before.Some? && sec.Some? {
        FoundHere(image, s, names, n - 1, utf8, before.value);
      }
    }
  }

  lemma NoBodies(image: seq<byte>, s: Sections, names: seq<byte>)
    ensures LastBody(image, s, names, 0, TEXT, None) && LastBody(image, s, names, 0, RODATA, None)
  {
  }

  lemma FoundHere(image: seq<byte>, s: Sections, names: seq<byte>, n: nat, utf8: seq<byte> -> bool, before: Roots)
    requires LastBody(image, s, names, n, TEXT, before.text) && LastBody(image, s, names, n, RODATA, before.rodata)
    requires Named(image, s, names, n, utf8).Some?
    ensures var sec := Named(image, s, names, n, utf8).value;
            var body := Body(image, sec.0);
            && (sec.1 == TEXT && body.Some? ==> LastBody(image, s, names, n + 1, TEXT, body))
            && (sec.1 != TEXT ==> LastBody(image, s, names, n + 1, TEXT, before.text))
            && (sec.1 == RODATA && body.Some? ==> LastBody(image, s, names, n + 1, RODATA, body))
            && (sec.1 != RODATA ==> LastBody(image, s, names, n + 1, RODATA, before.rodata))
  {
    hide Named, Body, IsNamed, HasBody, LastBody;
    var sec := Named(image, s, names, n, utf8).value;
    var body := Body(image, sec.0);
    NamedStands(image, s, names, n, utf8, sec.1);
    var here := if body.Some? then body.value else [];
    BodyStands(image, s, n, here);
    LastBodyNext(image, s, names, n, TEXT, before.text, here);
    LastBodyNext(image, s, names, n, RODATA, before.rodata, here);
    if IsNamed(image, s, names, n, TEXT) { OneName(image, s, names, n, TEXT, sec.1); }
    if IsNamed(image, s, names, n, RODATA) { OneName(image, s, names, n, RODATA, sec.1); }
  }

  /** The bytes of the image announce a 64-bit little-endian ELF file with this section table and these names. */
  ghost predicate Announces(image: seq<byte>, s: Sections, names: seq<byte>)
  {
    && |image| >= 64
    && image[0] == 0x7F && image[1] == 0x45 && image[2] == 0x4C && image[3] == 0x46 && image[4] == 2 && image[5] == 1
    && s.start == FromBytes(image[40..48]) && s.size == FromBytes(image[58..60])
    && s.count == FromBytes(image[60..62]) && s.names == FromBytes(image[62..64])
    && s.size >= 64 && s.names < s.count && HasBody(image, s, s.names, names)
  }

  /**
    The build script hashes exactly this: the last .text and the last .rodata section of an image whose
    sections are all readable, when neither is empty.
  */
  ghost predicate IsHashed(image: seq<byte>, utf8: seq<byte> -> bool, text: seq<byte>, rodata: seq<byte>)
  {
    text != [] && rodata != []
    && exists s, names :: Announces(image, s, names)
         && (forall i :: 0 <= i < s.count ==> Readable(image, s, names, i, utf8))
         && LastBody(image, s, names, s.count, TEXT, Some(text))
         && LastBody(image, s, names, s.count, RODATA, Some(rodata))
  }

  lemma AnnouncesExactlyWhen(image: seq<byte>, s: Sections, names: seq<byte>)
    ensures Announces(image, s, names) <==>
            IsElf64(image) && s == SectionsOf(image) && NamesOf(image) == Some(names)
  {
    hide FromBytes, HasBody;
    if |image| >= 64 {
      assert image[..4] == [image[0], image[1], image[2], image[3]];
      var t := SectionsOf(image);
      assert t.names * t.size == t.size * t.names;
      if t.start + t.size * t.names + 64 <= |image| {
        BodyStands(image, t, t.names, names);
      } else {
        NoBodyOutside(image, t, t.names, names);
      }
    }
  }

  lemma NoBodyOutside(image: seq<byte>, s: Sections, i: nat, body: seq<byte>)
    requires s.start + s.size * i + 64 > |image|
    ensures !HasBody(image, s, i, body)
  {
  }

  lemma LastBodyIsOne(image: seq<byte>, s: Sections, names: seq<byte>, n: nat, name: seq<byte>, a: Option<seq<byte>>,
                      b: Option<seq<byte>>)
    requires LastBody(image, s, names, n, name, a) && LastBody(image, s, names, n, name, b)
    ensures a == b
  {
    hide IsNamed, HasBody;
    if a.Some? && b.Some? {
      var i :| 0 <= i < n && IsNamed(image, s, names, i, name) && HasBody(image, s, i, a.value)
               && NoLater(image, s, names, i, n, name);
      var j :| 0 <= j < n && IsNamed(image, s, names, j, name) && HasBody(image, s, j, b.value)
               && NoLater(image, s, names, j, n, name);
      assert i == j;
      OneBody(image, s, i, a.value, b.value);
    }
  }

  lemma OneBody(image: seq<byte>, s: Sections, i: nat, a: seq<byte>, b: seq<byte>)
    requires HasBody(image, s, i, a) && HasBody(image, s, i, b)
    ensures a == b
  {
    hide FromBytes;
  }

  lemma HashedExactlyWhen(image: seq<byte>, utf8: seq<byte> -> bool, text: seq<byte>, rodata: seq<byte>)
    ensures Hashed(image, utf8) == Some((text, rodata)) <==> IsHashed(image, utf8, text, rodata)
  {
    hide SectionsOf, NamesOf, Search, Announces, LastBody, Readable;
    if Hashed(image, utf8) == Some((text, rodata)) {
      var s, names := SectionsOf(image), NamesOf(image).value;
      AnnouncesExactlyWhen(image, s, names);
      SearchFinds(image, s, names, s.count, utf8);
    }
    if IsHashed(image, utf8, text, rodata) {
      var s, names :| Announces(image, s, names)
                      && (forall i :: 0 <= i < s.count ==> Readable(image, s, names, i, utf8))
                      && LastBody(image, s, names, s.count, TEXT, Some(text))
                      && LastBody(image, s, names, s.count, RODATA, Some(rodata));
      AnnouncesExactlyWhen(image, s, names);
      SearchFinds(image, s, names, s.count, utf8);
      var r := Search(image, s, names, s.count, utf8).value;
      LastBodyIsOne(image, s, names, s.count, TEXT, Some(text), r.text);
      LastBodyIsOne(image, s, names, s.count, RODATA, Some(rodata), r.rodata);
    }
  }

  // ---------------------------------------------------------------- the kernel

  datatype ElfImage =
    ElfImage(text: seq<byte>, rodata: seq<byte>, data: seq<byte>, bssStart: nat, bssSize: nat, entry: nat)

  /** What the kernel's parser knows after some sections. */
  datatype Parsed = Parsed(text: Option<seq<byte>>, rodata: Option<seq<byte>>, data: Option<seq<byte>>,
                           bssStart: nat, bssSize: nat)

  function ParseOne(p: Parsed, image: seq<byte>, header: nat, name: seq<byte>): Option<Parsed>
    requires header + HEADER_SIZE <= |image|
  {
    var body := Body(image, header);
    if name == TEXT then (if body.None? then None else Some(p.(text := body)))
    else if name == RODATA then (if body.None? then None else Some(p.(rodata := body)))
    else if name == DATA then (if body.None? then None else Some(p.(data := body)))
    else if name == BSS then Some(p.(bssStart := Read(image, header + 16, 8), bssSize := Read(image, header + 32, 8)))
    else Some(p)
  }

  function Parse(image: seq<byte>, s: Sections, names: seq<byte>, n: nat, utf8: seq<byte> -> bool): Option<Parsed>
  {
    if n == 0 then Some(Parsed(None, None, None, 0, 0))
    else
      var before := Parse(image, s, names, n - 1, utf8);
      var sec := Named(image, s, names, n - 1, utf8);
      if before.None? || sec.None? then None else ParseOne(before.value, image, sec.value.0, sec.value.1)
  }

  function ParseElfOf(image: seq<byte>, utf8: seq<byte> -> bool): Result<ElfImage, ForgeError>
  {
    if !IsElf64(image) || NamesOf(image).None? then Err(ElfParseFailed)
    else
      var s := SectionsOf(image);
      var p := Parse(image, s, NamesOf(image).value, s.count, utf8);
      if p.None? || p.value.text.None? || p.value.rodata.None? then Err(ElfParseFailed)
      else Ok(ElfImage(p.value.text.value, p.value.rodata.value, if p.value.data.None? then [] else p.value.data.value,
                       p.value.bssStart, p.value.bssSize, Read(image, 24, 8)))
  }

  /** The kernel's parser. */
  method ParseElfSafe(image: seq<byte>, utf8: seq<byte> -> bool) returns (r: Result<ElfImage, ForgeError>)
    ensures r == ParseElfOf(image, utf8)
  {
    hide Named, Body, ParseOne, Read, NamesOf;
    if !IsElf64(image) {
      return Err(ElfParseFailed);
    }
    var s := SectionsOf(image);
    var names := NamesOf(image);
    if names.None? {
      return Err(ElfParseFailed);
    }
    var p := Parsed(None, None, None, 0, 0);
    for i := 0 to s.count
      invariant Parse(image, s, names.value, i, utf8) == Some(p)
    {
      var sec := Named(image, s, names.value, i, utf8);
      if sec.None? {
        ParseErrorStays(image, s, names.value, i + 1, s.count, utf8);
        return Err(ElfParseFailed);
      }
      var next := ParseOne(p, image, sec.value.0, sec.value.1);
      if next.None? {
        ParseErrorStays(image, s, names.value, i + 1, s.count, utf8);
        return Err(ElfParseFailed);
      }
      p := next.value;
    }
    if p.text.None? || p.rodata.None? {
      return Err(ElfParseFailed);
    }
    return Ok(ElfImage(p.text.value, p.rodata.value, if p.data.None? then [] else p.data.value,
                       p.bssStart, p.bssSize, Read(image, 24, 8)));
  }

  lemma {:induction false} ParseErrorStays(image: seq<byte>, s: Sections, names: seq<byte>, i: nat, n: nat,
                                           utf8: seq<byte> -> bool)
    requires i <= n && Parse(image, s, names, i, utf8).None?
    ensures Parse(image, s, names, n, utf8).None?
  {
    hide Named, Body, ParseOne;
    if i < n { ParseErrorStays(image, s, names, i, n - 1, utf8); }
  }

  // ---------------------------------------------------------------- what is parsed, in bytes

  /** Address and size of the last of the first n sections named .bss; zero without one. */
  ghost predicate LastBss(image: seq<byte>, s: Sections, names: seq<byte>, n: nat, start: nat, size: nat)
  {
    if exists i :: 0 <= i < n && IsNamed(image, s, names, i, BSS) then
      exists i :: 0 <= i < n && IsNamed(image, s, names, i, BSS) && NoLater(image, s, names, i, n, BSS)
                  && BssHeader(image, s, i, start, size)
    else start == 0 && size == 0
  }

  ghost predicate BssHeader(image: seq<byte>, s: Sections, i: nat, start: nat, size: nat)
  {
    var h := s.start + s.size * i;
    h + 64 <= |image| && start == FromBytes(image[h + 16..h + 24]) && size == FromBytes(image[h + 32..h + 40])
  }

  lemma LastBssNext(image: seq<byte>, s: Sections, names: seq<byte>, n: nat, start: nat, size: nat, a: nat, b: nat)
    requires LastBss(image, s, names, n, start, size)
    ensures !IsNamed(image, s, names, n, BSS) ==> LastBss(image, s, names, n + 1, start, size)
    ensures IsNamed(image, s, names, n, BSS) && BssHeader(image, s, n, a, b) ==> LastBss(image, s, names, n + 1, a, b)
  {
    hide IsNamed, BssHeader;
    if IsNamed(image, s, names, n, BSS) {
      assert NoLater(image, s, names, n, n + 1, BSS);
    } else if exists i :: 0 <= i < n && IsNamed(image, s, names, i, BSS) {
      var i :| 0 <= i < n && IsNamed(image, s, names, i, BSS) && NoLater(image, s, names, i, n, BSS)
               && BssHeader(image, s, i, start, size);
      assert NoLater(image, s, names, i, n + 1, BSS);
    }
  }

  /** What the parser knows after n sections: the last body of each kind, and the last .bss header. */
  ghost predicate ParsedSoFar(image: seq<byte>, s: Sections, names: seq<byte>, n: nat, p: Parsed)
  {
    && LastBody(image, s, names, n, TEXT, p.text) && LastBody(image, s, names, n, RODATA, p.rodata)
    && LastBody(image, s, names, n, DATA, p.data) && LastBss(image, s, names, n, p.bssStart, p.bssSize)
  }

  lemma ParsedHere(image: seq<byte>, s: Sections, names: seq<byte>, n: nat, utf8: seq<byte> -> bool, p: Parsed)
    requires ParsedSoFar(image, s, names, n, p) && Named(image, s, names, n, utf8).Some?
    ensures var sec := Named(image, s, names, n, utf8).value;
            var r := ParseOne(p, image, sec.0, sec.1);
            r.Some? ==> ParsedSoFar(image, s, names, n + 1, r.value)
  {
    hide Named, Body, IsNamed, HasBody, LastBody, LastBss;
    var sec := Named(image, s, names, n, utf8).value;
    var body := Body(image, sec.0);
    NamedStands(image, s, names, n, utf8, sec.1);
    var here := if body.Some? then body.value else [];
    BodyStands(image, s, n, here);
    LastBodyNext(image, s, names, n, TEXT, p.text, here);
    LastBodyNext(image, s, names, n, RODATA, p.rodata, here);
    LastBodyNext(image, s, names, n, DATA, p.data, here);
    LastBssNext(image, s, names, n, p.bssStart, p.bssSize, Read(image, sec.0 + 16, 8), Read(image, sec.0 + 32, 8));
    forall name | IsNamed(image, s, names, n, name) ensures name == sec.1 { OneName(image, s, names, n, name, sec.1); }
  }

  /** A section the parser can take: readable, and with a body if it is named .data. */
  ghost predicate Parsable(image: seq<byte>, s: Sections, names: seq<byte>, i: nat, utf8: seq<byte> -> bool)
  {
    Readable(image, s, names, i, utf8)
    && (IsNamed(image, s, names, i, DATA) ==> exists body :: HasBody(image, s, i, body))
  }

  lemma ParsableStands(image: seq<byte>, s: Sections, names: seq<byte>, i: nat, utf8: seq<byte> -> bool, p: Parsed)
    ensures var sec := Named(image, s, names, i, utf8);
            Parsable(image, s, names, i, utf8) <==>
            sec.Some? && ParseOne(p, image, sec.value.0, sec.value.1).Some?
  {
    hide Named, Body, IsNamed, HasBody, Readable;
    ReadableStands(image, s, names, i, utf8);
    var sec := Named(image, s, names, i, utf8);
    if sec.Some? {
      NamedStands(image, s, names, i, utf8, sec.value.1);
      var body := Body(image, sec.value.0);
      if body.Some? { BodyStands(image, s, i, body.value); }
      forall b | HasBody(image, s, i, b) ensures body == Some(b) { BodyStands(image, s, i, b); }
      if IsNamed(image, s, names, i, DATA) { OneName(image, s, names, i, DATA, sec.value.1); }
    }
  }

  /** The parser gets through exactly when it can take every section, and keeps the last of each. */
  lemma {:induction false} ParseFinds(image: seq<byte>, s: Sections, names: seq<byte>, n: nat, utf8: seq<byte> -> bool)
    ensures var r := Parse(image, s, names, n, utf8);
            && (r.Some? <==> forall i :: 0 <= i < n ==> Parsable(image, s, names, i, utf8))
            && (r.Some? ==> ParsedSoFar(image, s, names, n, r.value))
  {
    hide Named, Body, IsNamed, HasBody, LastBody, LastBss, ParseOne, ParsedSoFar, Parsable;
    if n == 0 {
      NothingParsed(image, s, names);
    } else {
      ParseFinds(image, s, names, n - 1, utf8);
      var before := Parse(image, s, names, n - 1, utf8);
      if before.Some? {
        ParsableStands(image, s, names, n - 1, utf8, before.value);
        if Named(image, s, names, n - 1, utf8).Some? { ParsedHere(image, s, names, n - 1, utf8, before.value); }
      }
    }
  }

  lemma NothingParsed(image: seq<byte>, s: Sections, names: seq<byte>)
    ensures ParsedSoFar(image, s, names, 0, Parsed(None, None, None, 0, 0))
  {
  }

  lemma LastBssIsOne(image: seq<byte>, s: Sections, names: seq<byte>, n: nat, a: nat, b: nat, c: nat, d: nat)
    requires LastBss(image, s, names, n, a, b) && LastBss(image, s, names, n, c, d)
    ensures a == c && b == d
  {
    hide IsNamed, BssHeader;
    if exists i :: 0 <= i < n && IsNamed(image, s, names, i, BSS) {
      var i :| 0 <= i < n && IsNamed(image, s, names, i, BSS) && NoLater(image, s, names, i, n, BSS)
               && BssHeader(image, s, i, a, b);
      var j :| 0 <= j < n && IsNamed(image, s, names, j, BSS) && NoLater(image, s, names, j, n, BSS)
               && BssHeader(image, s, j, c, d);
      assert i == j;
      OneBssHeader(image, s, i, a, b, c, d);
    }
  }

  lemma OneBssHeader(image: seq<byte>, s: Sections, i: nat, a: nat, b: nat, c: nat, d: nat)
    requires BssHeader(image, s, i, a, b) && BssHeader(image, s, i, c, d)
    ensures a == c && b == d
  {
    hide FromBytes;
  }

  /**
    What the kernel's parser reads: the last .text, .rodata and .data bodies, the last .bss header and
    the entry word of an image all of whose sections it can take; .data may be missing.
  */
  ghost predicate IsParsed(image: seq<byte>, utf8: seq<byte> -> bool, elf: ElfImage)
  {
    |image| >= 64 && elf.entry == FromBytes(image[24..32])
    && exists s, names :: Announces(image, s, names)
         && (forall i :: 0 <= i < s.count ==> Parsable(image, s, names, i, utf8))
         && Bodies(image, s, names, elf)
         && LastBss(image, s, names, s.count, elf.bssStart, elf.bssSize)
  }

  ghost predicate Bodies(image: seq<byte>, s: Sections, names: seq<byte>, elf: ElfImage)
  {
    && LastBody(image, s, names, s.count, TEXT, Some(elf.text))
    && LastBody(image, s, names, s.count, RODATA, Some(elf.rodata))
    && (LastBody(image, s, names, s.count, DATA, Some(elf.data))
        || (elf.data == [] && LastBody(image, s, names, s.count, DATA, None)))
  }

  /** The parser returns exactly what stands in the image. */
  lemma ParsedExactlyWhen(image: seq<byte>, utf8: seq<byte> -> bool, elf: ElfImage)
    ensures ParseElfOf(image, utf8) == Ok(elf) <==> IsParsed(image, utf8, elf)
  {
    hide SectionsOf, NamesOf, Parse, Announces, LastBody, LastBss, FromBytes, Parsable;
    if ParseElfOf(image, utf8) == Ok(elf) {
      var s, names := SectionsOf(image), NamesOf(image).value;
      AnnouncesExactlyWhen(image, s, names);
      ParseFinds(image, s, names, s.count, utf8);
      assert Bodies(image, s, names, elf);
    }
    if IsParsed(image, utf8, elf) {
      var s, names :| Announces(image, s, names)
                      && (forall i :: 0 <= i < s.count ==> Parsable(image, s, names, i, utf8))
                      && Bodies(image, s, names, elf)
                      && LastBss(image, s, names, s.count, elf.bssStart, elf.bssSize);
      AnnouncesExactlyWhen(image, s, names);
      ParseFinds(image, s, names, s.count, utf8);
      SameParsed(image, s, names, elf, Parse(image, s, names, s.count, utf8).value);
    }
  }

  lemma SameParsed(image: seq<byte>, s: Sections, names: seq<byte>, elf: ElfImage, p: Parsed)
    requires Bodies(image, s, names, elf) && LastBss(image, s, names, s.count, elf.bssStart, elf.bssSize)
    requires ParsedSoFar(image, s, names, s.count, p)
    ensures p.text == Some(elf.text) && p.rodata == Some(elf.rodata)
    ensures elf.data == if p.data.None? then [] else p.data.value
    ensures p.bssStart == elf.bssStart && p.bssSize == elf.bssSize
  {
    hide LastBody, LastBss;
    LastBodyIsOne(image, s, names, s.count, TEXT, Some(elf.text), p.text);
    LastBodyIsOne(image, s, names, s.count, RODATA, Some(elf.rodata), p.rodata);
    if LastBody(image, s, names, s.count, DATA, Some(elf.data)) {
      LastBodyIsOne(image, s, names, s.count, DATA, Some(elf.data), p.data);
    } else {
      LastBodyIsOne(image, s, names, s.count, DATA, None, p.data);
    }
    LastBssIsOne(image, s, names, s.count, elf.bssStart, elf.bssSize, p.bssStart, p.bssSize);
  }

  // ---------------------------------------------------------------- hashing in chunks

  class Hasher {
    var fed: seq<byte>

    constructor ()
      ensures fed == []
    {
      fed := [];
    }

    method Update(bytes: seq<byte>)
      modifies this
      ensures fed == old(fed) + bytes
    {
      fed := fed + bytes;
    }

    /** Feeds the input through an aligned buffer of 1024 bytes, which is reused for every chunk. */
    method UpdateAligned(input: seq<byte>)
      modifies this
      ensures fed == old(fed) + input
    {
      var scratch := new byte[CHUNK](_ => 0);
      var done := 0;
      while done < |input|
        invariant done <= |input| && fed == old(fed) + input[..done]
      {
        var len := if |input| - done < CHUNK then |input| - done else CHUNK;
        forall k | 0 <= k < len {
          scratch[k] := input[done + k];
        }
        assert scratch[..len] == input[done..done + len];
        assert input[..done] + input[done..done + len] == input[..done + len];
        Update(scratch[..len]);
        done := done + len;
      }
      assert input[..done] == input;
    }
  }

  predicate AllZero(d: Digest) { forall i :: 0 <= i < |d| ==> d[i] == 0 }

  /** The comparison with the stored root. */
  method VerifyMerkle(elf: ElfImage, imageHash: Digest, root: Digest, hash: seq<byte> -> Digest)
    returns (r: Result<(), ForgeError>)
    ensures r == if AllZero(imageHash) || AllZero(root) || hash(elf.text + elf.rodata) != root
                 then Err(MerkleVerifyFailed) else Ok(())
  {
    if AllZero(imageHash) || AllZero(root) {
      return Err(MerkleVerifyFailed);
    }
    var hasher := new Hasher();
    hasher.UpdateAligned(elf.text);
    hasher.UpdateAligned(elf.rodata);
    assert hasher.fed == elf.text + elf.rodata;
    if hash(hasher.fed) != root {
      return Err(MerkleVerifyFailed);
    }
    return Ok(());
  }

  predicate BssBounded(start: nat, size: nat) { start + size < U64_SIZE && size <= MAX_BSS }

  /** The layout the kernel insists on. */
  predicate GoodLayout(elf: ElfImage)
  {
    elf.text != [] && elf.rodata != [] && elf.entry != 0 && BssBounded(elf.bssStart, elf.bssSize)
  }

  method VerifyImage(image: seq<byte>, imageHash: Digest, root: Digest, hash: seq<byte> -> Digest,
                     utf8: seq<byte> -> bool)
    returns (r: Result<(), ForgeError>)
    ensures r.Ok? <==> Accepted(image, imageHash, root, hash, utf8)
    ensures r == Err(ElfParseFailed) <==> ParseElfOf(image, utf8).Err? || !GoodLayout(ParseElfOf(image, utf8).value)
  {
    var elf := ParseElfSafe(image, utf8);
    if elf.Err? {
      return Err(elf.error);
    }
    if !GoodLayout(elf.value) {
      return Err(ElfParseFailed);
    }
    r := VerifyMerkle(elf.value, imageHash, root, hash);
  }

  predicate Accepted(image: seq<byte>, imageHash: Digest, root: Digest, hash: seq<byte> -> Digest,
                     utf8: seq<byte> -> bool)
  {
    var elf := ParseElfOf(image, utf8);
    elf.Ok? && GoodLayout(elf.value) && !AllZero(imageHash) && !AllZero(root)
    && hash(elf.value.text + elf.value.rodata) == root
  }

  // ---------------------------------------------------------------- agreement

  /** Every section named .data among the first n lies in the image. */
  predicate DataInImage(image: seq<byte>, s: Sections, names: seq<byte>, n: nat, utf8: seq<byte> -> bool)
  {
    forall i :: 0 <= i < n ==>
      var sec := Named(image, s, names, i, utf8);
      sec.Some? && sec.value.1 == DATA ==> Body(image, sec.value.0).Some?
  }

  /** Where the build script gets through, the parser gets through exactly when .data does, with the same sections. */
  lemma {:induction false} SearchesAgree(image: seq<byte>, s: Sections, names: seq<byte>, n: nat,
                                         utf8: seq<byte> -> bool)
    requires Search(image, s, names, n, utf8).Some?
    ensures Parse(image, s, names, n, utf8).Some? <==> DataInImage(image, s, names, n, utf8)
    ensures Parse(image, s, names, n, utf8).Some? ==>
              Parse(image, s, names, n, utf8).value.text == Search(image, s, names, n, utf8).value.text
              && Parse(image, s, names, n, utf8).value.rodata == Search(image, s, names, n, utf8).value.rodata
  {
    hide Named, Body, Read;
    if n > 0 {
      SearchesAgree(image, s, names, n - 1, utf8);
    }
  }

  /**
    For every image the build script accepts, the parser finds the sections that were hashed, or a
    .data section is outside the image.
  */
  lemma ParserFindsWhatWasHashed(image: seq<byte>, utf8: seq<byte> -> bool)
    requires Hashed(image, utf8).Some?
    ensures var s := SectionsOf(image);
            ParseElfOf(image, utf8).Ok? <==> DataInImage(image, s, NamesOf(image).value, s.count, utf8)
    ensures ParseElfOf(image, utf8).Ok? ==>
              (ParseElfOf(image, utf8).value.text, ParseElfOf(image, utf8).value.rodata) == Hashed(image, utf8).value
  {
    SearchesAgree(image, SectionsOf(image), NamesOf(image).value, SectionsOf(image).count, utf8);
  }

  predicate IsBss(image: seq<byte>, s: Sections, names: seq<byte>, i: nat, utf8: seq<byte> -> bool)
  {
    var sec := Named(image, s, names, i, utf8);
    sec.Some? && sec.value.1 == BSS
  }

  /** The last of the first n sections that is named .bss, if any, has an address range and a size within bounds. */
  predicate LastBssBounded(image: seq<byte>, s: Sections, names: seq<byte>, n: nat, utf8: seq<byte> -> bool)
  {
    forall i ::
      0 <= i < n && IsBss(image, s, names, i, utf8) && (forall j :: i < j < n ==> !IsBss(image, s, names, j, utf8)) ==>
        var header := Named(image, s, names, i, utf8).value.0;
        BssBounded(Read(image, header + 16, 8), Read(image, header + 32, 8))
  }

  lemma {:induction false} ParserKeepsLastBss(image: seq<byte>, s: Sections, names: seq<byte>, n: nat,
                                              utf8: seq<byte> -> bool)
    requires Parse(image, s, names, n, utf8).Some?
    ensures var p := Parse(image, s, names, n, utf8).value;
            BssBounded(p.bssStart, p.bssSize) <==> LastBssBounded(image, s, names, n, utf8)
  {
    hide Named, Body, Read, BssBounded;
    if n == 0 {
      NoBssIsBounded();
    } else {
      ParserKeepsLastBss(image, s, names, n - 1, utf8);
      if !IsBss(image, s, names, n - 1, utf8) {
        LastBssBelow(image, s, names, n, utf8);
      }
    }
  }

  lemma NoBssIsBounded()
    ensures BssBounded(0, 0)
  {
  }

  lemma LastBssBelow(image: seq<byte>, s: Sections, names: seq<byte>, n: nat, utf8: seq<byte> -> bool)
    requires n > 0 && !IsBss(image, s, names, n - 1, utf8)
    ensures LastBssBounded(image, s, names, n - 1, utf8) <==> LastBssBounded(image, s, names, n, utf8)
  {
    hide Named, Read, BssBounded;
    forall i | 0 <= i < n && IsBss(image, s, names, i, utf8)
      ensures (forall j :: i < j < n ==> !IsBss(image, s, names, j, utf8))
              <==> (forall j :: i < j < n - 1 ==> !IsBss(image, s, names, j, utf8))
    {
      assert i < n - 1;
    }
  }

  /**
    With the root the build script stored, the kernel accepts the image exactly when its own extra
    checks hold of the image.
  */
  lemma AcceptedExactlyWhen(image: seq<byte>, imageHash: Digest, hash: seq<byte> -> Digest, utf8: seq<byte> -> bool)
    requires RootOf(image, hash, utf8).Some?
    ensures var s := SectionsOf(image);
            var names := NamesOf(image).value;
            Accepted(image, imageHash, RootOf(image, hash, utf8).value, hash, utf8)
            <==> DataInImage(image, s, names, s.count, utf8) && LastBssBounded(image, s, names, s.count, utf8)
                 && Read(image, 24, 8) != 0
                 && !AllZero(imageHash) && !AllZero(RootOf(image, hash, utf8).value)
  {
    hide Search, Read, NamesOf, SectionsOf, BssBounded, LastBssBounded, DataInImage, AllZero;
    ParserFindsWhatWasHashed(image, utf8);
    if ParseElfOf(image, utf8).Ok? {
      ParserKeepsLastBss(image, SectionsOf(image), NamesOf(image).value, SectionsOf(image).count, utf8);
    }
  }

  // ---------------------------------------------------------------- a built image that is refused

  const NAMES: seq<byte> := TEXT + [0] + RODATA + [0]

  /** A section header with this name, whose body starts at 192. */
  function Header(name: byte, size: byte): (h: seq<byte>)
    ensures |h| == HEADER_SIZE
  {
    [name] + Zeros(23) + [192] + Zeros(7) + [size] + Zeros(31)
  }

  /** No entry point; section table at 64; two headers of 64 bytes; header 0 also holds the names. */
  const ELF_HEADER: seq<byte> :=
    [127, 69, 76, 70, 2, 1] + Zeros(34) + [64] + Zeros(17) + [64, 0, 2, 0, 0, 0]

  /** A .text of 14 bytes, which are the section names, and a .rodata of one byte. */
  const NO_ENTRY: seq<byte> := ELF_HEADER + Header(0, 14) + Header(6, 1) + NAMES

  lemma {:induction false} SmallWord(b: seq<byte>)
    requires b != [] && forall i :: 1 <= i < |b| ==> b[i] == 0
    ensures FromBytes(b) == b[0]
  {
    if |b| > 1 { SmallWord(b[1..]); }
  }

  lemma ReadSmall(image: seq<byte>, at: nat, n: nat)
    requires n > 0 && at + n <= |image| && forall i :: at < i < at + n ==> image[i] == 0
    ensures Read(image, at, n) == image[at]
  {
    SmallWord(image[at..at + n]);
  }

  lemma NoEntryParts()
    ensures |NO_ENTRY| == 206 && NO_ENTRY[..64] == ELF_HEADER
    ensures NO_ENTRY[64..128] == Header(0, 14) && NO_ENTRY[128..192] == Header(6, 1) && NO_ENTRY[192..206] == NAMES
  {
    hide Header;
  }

  lemma NoEntryWords()
    ensures |NO_ENTRY| == 206 && IsElf64(NO_ENTRY)
    ensures SectionsOf(NO_ENTRY) == Sections(64, 64, 2, 0) && Read(NO_ENTRY, 24, 8) == 0
  {
    NoEntryParts();
    ElfHeaderFields(NO_ENTRY);
  }

  lemma ElfHeaderFields(image: seq<byte>)
    requires |image| >= 64 && image[..64] == ELF_HEADER
    ensures IsElf64(image) && SectionsOf(image) == Sections(64, 64, 2, 0) && Read(image, 24, 8) == 0
  {
    hide Read;
    assert forall k :: 0 <= k < 64 ==> image[k] == ELF_HEADER[k];
    ReadSmall(image, 24, 8);
    ReadSmall(image, 40, 8);
    ReadSmall(image, 58, 2);
    ReadSmall(image, 60, 2);
    ReadSmall(image, 62, 2);
  }

  lemma HeaderFields(image: seq<byte>, at: nat, name: byte, size: byte)
    requires at + HEADER_SIZE <= |image| && image[at..at + HEADER_SIZE] == Header(name, size)
    ensures Read(image, at, 4) == name && Read(image, at + 24, 8) == 192 && Read(image, at + 32, 8) == size
  {
    hide Read;
    forall k | at <= k < at + HEADER_SIZE ensures image[k] == Header(name, size)[k - at] {
      assert image[at..at + HEADER_SIZE][k - at] == image[k];
    }
    ReadSmall(image, at, 4);
    ReadSmall(image, at + 24, 8);
    ReadSmall(image, at + 32, 8);
  }

  lemma NoEntryHeaders()
    ensures |NO_ENTRY| == 206
    ensures Read(NO_ENTRY, 64, 4) == 0 && Body(NO_ENTRY, 64) == Some(NAMES)
    ensures Read(NO_ENTRY, 128, 4) == 6 && Body(NO_ENTRY, 128) == Some([46])
  {
    hide Read, Header;
    NoEntryParts();
    HeaderFields(NO_ENTRY, 64, 0, 14);
    HeaderFields(NO_ENTRY, 128, 6, 1);
    assert NO_ENTRY[192..193] == NAMES[..1] == [46];
  }

  lemma NoEntryNames()
    ensures ToZero(NAMES, 0) == Some(TEXT) && ToZero(NAMES, 6) == Some(RODATA)
  {
    NameEnds(NAMES, 0, TEXT);
    NameEnds(NAMES, 6, RODATA);
  }

  lemma {:induction false} NameEnds(b: seq<byte>, at: nat, name: seq<byte>)
    requires at + |name| < |b| && b[at..at + |name|] == name && 0 !in name && b[at + |name|] == 0
    ensures ToZero(b, at) == Some(name)
    decreases |name|
  {
    if name != [] {
      assert b[at] == name[0] && b[at + 1..at + |name|] == name[1..];
      NameEnds(b, at + 1, name[1..]);
      assert name == [name[0]] + name[1..];
    }
  }

  /** The build script stores a root for it, and the kernel refuses it with that root: it has no entry point. */
  lemma NoEntryIsRefused(imageHash: Digest, hash: seq<byte> -> Digest, utf8: seq<byte> -> bool)
    requires utf8(TEXT) && utf8(RODATA)
    ensures RootOf(NO_ENTRY, hash, utf8) == Some(hash(NAMES + [46]))
    ensures !Accepted(NO_ENTRY, imageHash, hash(NAMES + [46]), hash, utf8)
  {
    hide Read, Body, ToZero;
    NoEntryWords();
    NoEntryHeaders();
    NoEntryNames();
    var s := Sections(64, 64, 2, 0);
    assert NamesOf(NO_ENTRY) == Some(NAMES);
    assert Named(NO_ENTRY, s, NAMES, 0, utf8) == Some((64, TEXT));
    assert Named(NO_ENTRY, s, NAMES, 1, utf8) == Some((128, RODATA));
    assert Search(NO_ENTRY, s, NAMES, 1, utf8) == Some(Roots(Some(NAMES), None));
    assert Search(NO_ENTRY, s, NAMES, 2, utf8) == Some(Roots(Some(NAMES), Some([46])));
    AcceptedExactlyWhen(NO_ENTRY, imageHash, hash, utf8);
  }
}
