/** The names parse_pbzx gives its output files, `'%s.part%02d.cpio'` and
    `'%s.part%02d.cpio.xz'`, and the `'.xz' in name` test the reassembly loop
    applies to them. */
module PartNames {
  import opened Bytes
  import opened PbzxSpec

  predicate IsDigit(c: char)
  {
    '0' <= c <= '9'
  }

  function DigitChar(d: nat): (c: char)
    requires d < 10
    ensures IsDigit(c)
  {
    "0123456789"[d]
  }

  /** `'%d' % n` */
  function Decimal(n: nat): (s: string)
    ensures |s| >= 1
    ensures |s| == 1 <==> n < 10
    ensures forall i :: 0 <= i < |s| ==> IsDigit(s[i])
  {
    if n < 10 then [DigitChar(n)] else Decimal(n / 10) + [DigitChar(n % 10)]
  }

  /** `'%02d' % n`: at least two digits, zero-padded. */
  function TwoDigits(n: nat): (s: string)
    ensures |s| >= 2
    ensures forall i :: 0 <= i < |s| ==> IsDigit(s[i])
  {
    if n < 10 then ['0', DigitChar(n)] else Decimal(n)
  }

  function Extension(kind: Kind): string
  {
    match kind
    case Cpio => ".cpio"
    case CpioXz => ".cpio.xz"
  }

  /** The name of section number `section`, for the container at `path`. */
  function PartName(path: string, section: nat, kind: Kind): string
  {
    path + ".part" + TwoDigits(section) + Extension(kind)
  }

  /** `archivechunks`: entry i names section i. */
  function Names(path: string, sections: seq<Section>): seq<string>
  {
    seq(|sections|, i requires 0 <= i < |sections| => PartName(path, i, sections[i].kind))
  }

  lemma NamesAppend(path: string, sections: seq<Section>, s: Section)
    ensures Names(path, sections + [s]) == Names(path, sections) + [PartName(path, |sections|, s.kind)]
  {
  }

  /** Writing to the open section does not change any name. */
  lemma NamesAppendToOpen(path: string, sections: seq<Section>, bytes: seq<byte>)
    requires sections != []
    ensures Names(path, AppendToOpen(sections, bytes)) == Names(path, sections)
  {
    var after := AppendToOpen(sections, bytes);
    forall i | 0 <= i < |sections|
      ensures after[i].kind == sections[i].kind
    {
      if i < |sections| - 1 {
        assert after[i] == after[..|sections| - 1][i];
      }
    }
  }

  /** `'.xz' in name` */
  predicate ContainsXz(name: string)
  {
    exists i | 0 <= i <= |name| - 3 :: XzAt(name, i)
  }

  predicate XzAt(name: string, i: int)
  {
    0 <= i && i + 3 <= |name| && name[i..i + 3] == ".xz"
  }

  // ----- distinct names -----

  lemma {:induction false} LeadingDigitNonzero(n: nat)
    requires n >= 1
    ensures Decimal(n)[0] != '0'
  {
    if n >= 10 {
      LeadingDigitNonzero(n / 10);
      assert Decimal(n)[0] == Decimal(n / 10)[0];
    }
  }

  lemma {:induction false} DecimalInjective(m: nat, n: nat)
    requires Decimal(m) == Decimal(n)
    ensures m == n
  {
    if m >= 10 && n >= 10 {
      var a, b := Decimal(m), Decimal(n);
      assert a[..|a| - 1] == Decimal(m / 10) && b[..|b| - 1] == Decimal(n / 10);
      DecimalInjective(m / 10, n / 10);
      assert DigitChar(m % 10) == a[|a| - 1] == b[|b| - 1] == DigitChar(n % 10);
    }
  }

  lemma TwoDigitsInjective(m: nat, n: nat)
    requires TwoDigits(m) == TwoDigits(n)
    ensures m == n
  {
    if m < 10 && n >= 10 {
      LeadingDigitNonzero(n);
    } else if n < 10 && m >= 10 {
      LeadingDigitNonzero(m);
    } else if m >= 10 && n >= 10 {
      DecimalInjective(m, n);
    } else {
      assert DigitChar(m) == TwoDigits(m)[1] == TwoDigits(n)[1] == DigitChar(n);
    }
  }

  /** A digit string followed by a string that starts with '.' splits in one way only. */
  lemma DigitsThenDot(a: string, x: string, b: string, y: string)
    requires forall i :: 0 <= i < |a| ==> IsDigit(a[i])
    requires forall i :: 0 <= i < |b| ==> IsDigit(b[i])
    requires |x| > 0 && x[0] == '.' && |y| > 0 && y[0] == '.'
    requires a + x == b + y
    ensures a == b && x == y
  {
    assert (a + x)[|a|] == '.' && (b + y)[|b|] == '.';
    assert |a| == |b|;
    assert a == (a + x)[..|a|] && b == (b + y)[..|b|];
    assert x == (a + x)[|a|..] && y == (b + y)[|b|..];
  }

  lemma PrefixCancels(prefix: string, x: string, y: string)
    requires prefix + x == prefix + y
    ensures x == y
  {
    assert x == (prefix + x)[|prefix|..];
    assert y == (prefix + y)[|prefix|..];
  }

  lemma PartNameSplits(path: string, section: nat, kind: Kind)
    ensures PartName(path, section, kind) == (path + ".part") + (TwoDigits(section) + Extension(kind))
  {
  }

  /** What follows the path in a part name, `'%02d' % section` and the
      extension, determines the section number and the kind. */
  lemma SuffixInjective(i: nat, k: Kind, j: nat, k': Kind)
    requires TwoDigits(i) + Extension(k) == TwoDigits(j) + Extension(k')
    ensures i == j && k == k'
  {
    DigitsThenDot(TwoDigits(i), Extension(k), TwoDigits(j), Extension(k'));
    TwoDigitsInjective(i, j);
    assert |Extension(k)| == |Extension(k')|;
  }

  /** Two sections' names agree only if their numbers and kinds do: no output
      file of parse_pbzx overwrites another. */
  lemma PartNameInjective(path: string, i: nat, k: Kind, j: nat, k': Kind)
    requires PartName(path, i, k) == PartName(path, j, k')
    ensures i == j && k == k'
  {
    PartNameSplits(path, i, k);
    PartNameSplits(path, j, k');
    PrefixCancels(path + ".part", TwoDigits(i) + Extension(k), TwoDigits(j) + Extension(k'));
    SuffixInjective(i, k, j, k');
  }

  /** The list parse_pbzx returns has no repeated name. */
  lemma NamesDistinct(path: string, sections: seq<Section>)
    ensures forall i, j :: 0 <= i < j < |sections| ==> Names(path, sections)[i] != Names(path, sections)[j]
  {
    forall i, j | 0 <= i < j < |sections|
      ensures Names(path, sections)[i] != Names(path, sections)[j]
    {
      if Names(path, sections)[i] == Names(path, sections)[j] {
        PartNameInjective(path, i, sections[i].kind, j, sections[j].kind);
      }
    }
  }

  // ----- the '.xz' in name test -----

  lemma CpioRestHasNoZ(section: nat)
    ensures forall c :: c in ".part" + TwoDigits(section) + Extension(Cpio) ==> c != 'z'
  {
    var rest := ".part" + TwoDigits(section) + Extension(Cpio);
    forall c | c in rest
      ensures c != 'z'
    {
      var j :| 0 <= j < |rest| && rest[j] == c;
      if 5 <= j < 5 + |TwoDigits(section)| {
        assert rest[j] == TwoDigits(section)[j - 5];
      }
    }
  }

  /** An ".xz" in `path + rest` lies inside `path` when `rest` has no 'z'. */
  lemma XzStaysInPath(path: string, rest: string)
    requires forall c :: c in rest ==> c != 'z'
    ensures ContainsXz(path + rest) ==> ContainsXz(path)
  {
    var name := path + rest;
    if ContainsXz(name) {
      var i :| 0 <= i <= |name| - 3 && XzAt(name, i);
      forall j | |path| <= j < |name|
        ensures name[j] != 'z'
      {
        assert name[j] == rest[j - |path|];
        assert rest[j - |path|] in rest;
      }
      assert name[i + 2] == 'z';
      assert i + 3 <= |path|;
      assert path[i..i + 3] == name[i..i + 3];
      assert XzAt(path, i);
    }
  }

  /** When the container's own path has no ".xz" in it, the reassembly test
      `'.xz' in name` picks out exactly the `.cpio.xz` sections. */
  lemma XzTestFollowsKind(path: string, section: nat, kind: Kind)
    requires !ContainsXz(path)
    ensures ContainsXz(PartName(path, section, kind)) <==> kind == CpioXz
  {
    var name := PartName(path, section, kind);
    if kind == CpioXz {
      assert XzAt(name, |name| - 3);
    } else {
      var rest := ".part" + TwoDigits(section) + Extension(Cpio);
      assert name == path + rest;
      CpioRestHasNoZ(section);
      XzStaysInPath(path, rest);
    }
  }

  /** With ".xz" in the container's path, every part passes the test, the raw
      `.cpio` parts included: "a.xz/Payload" makes its `.cpio` parts look
      compressed. */
  lemma XzInPathMisclassifiesCpio(path: string, section: nat, kind: Kind)
    requires ContainsXz(path)
    ensures ContainsXz(PartName(path, section, kind))
  {
    var name := PartName(path, section, kind);
    var i :| 0 <= i <= |path| - 3 && XzAt(path, i);
    assert name[..|path|] == path;
    assert name[i..i + 3] == path[i..i + 3];
    assert XzAt(name, i);
  }

  // ----- the name decompress writes to -----

  /** The characters `str.strip('.xz')` removes. */
  predicate Strippable(c: char)
  {
    c == '.' || c == 'x' || c == 'z'
  }

  /** `s.rstrip('.xz')`: the longest prefix of `s` that does not end in '.',
      'x' or 'z'. */
  function StripEnd(s: string): (r: string)
    ensures r <= s
    ensures r == [] || !Strippable(r[|r| - 1])
    ensures forall i :: |r| <= i < |s| ==> Strippable(s[i])
  {
    if s != [] && Strippable(s[|s| - 1]) then StripEnd(s[..|s| - 1]) else s
  }

  /** `s.lstrip('.xz')`: the longest suffix of `s` that does not start with '.',
      'x' or 'z'. */
  function StripStart(s: string): (r: string)
    ensures |r| <= |s| && r == s[|s| - |r|..]
    ensures r == [] || !Strippable(r[0])
    ensures forall i :: 0 <= i < |s| - |r| ==> Strippable(s[i])
  {
    if s != [] && Strippable(s[0]) then StripStart(s[1..]) else s
  }

  /** `name.strip('.xz')`, the file decompress writes a part's decoding to.
      It leaves the name as it is exactly when the name neither starts nor
      ends with one of '.', 'x' and 'z'. */
  function Strip(name: string): (r: string)
    ensures |r| <= |name|
    ensures r == name <==> name == [] || (!Strippable(name[0]) && !Strippable(name[|name| - 1]))
  {
    StripStart(StripEnd(name))
  }

  /** A `.cpio.xz` part of a container whose path does not start with '.', 'x'
      or 'z' is decoded into the name of the `.cpio` part with the same number,
      which parse_pbzx never writes: the `.cpio.xz` and `.cpio` numbers
      alternate. */
  lemma StripXzPart(path: string, section: nat)
    requires path != [] && !Strippable(path[0])
    ensures Strip(PartName(path, section, CpioXz)) == PartName(path, section, Cpio)
  {
    var cpio := PartName(path, section, Cpio);
    assert PartName(path, section, CpioXz) == cpio + ".xz";
    assert cpio[|cpio| - 1] == 'o' && cpio[0] == path[0];
    StripEndDropsXz(cpio);
  }

  /** `rstrip('.xz')` of a name that does not end in '.', 'x' or 'z', with
      ".xz" appended, gives the name back. */
  lemma StripEndDropsXz(s: string)
    requires s != [] && !Strippable(s[|s| - 1])
    ensures StripEnd(s + ".xz") == s
  {
    assert (s + ".xz")[..|s| + 2] == s + ".x";
    assert (s + ".x")[..|s| + 1] == s + ".";
    assert (s + ".")[..|s|] == s;
  }

  /** A `.cpio` part of a container whose path does not start with '.', 'x' or
      'z' keeps its own name under strip. */
  lemma StripCpioPart(path: string, section: nat)
    requires path != [] && !Strippable(path[0])
    ensures Strip(PartName(path, section, Cpio)) == PartName(path, section, Cpio)
  {
    var cpio := PartName(path, section, Cpio);
    assert cpio[|cpio| - 1] == 'o' && cpio[0] == path[0];
  }

  /** A `.cpio.xz` part never keeps its name under strip, since it ends in 'z'. */
  lemma StripMovesXzPart(path: string, section: nat)
    ensures Strip(PartName(path, section, CpioXz)) != PartName(path, section, CpioXz)
  {
    var name := PartName(path, section, CpioXz);
    assert name[|name| - 1] == 'z';
  }

  /** ... and so the decoding of a `.cpio.xz` part overwrites no part. */
  lemma XzTargetIsNoPart(path: string, sections: seq<Section>, i: nat)
    requires path != [] && !Strippable(path[0])
    requires i < |sections| && sections[i].kind == CpioXz
    ensures Strip(Names(path, sections)[i]) !in Names(path, sections)
  {
    StripXzPart(path, i);
    if Strip(Names(path, sections)[i]) in Names(path, sections) {
      var j :| 0 <= j < |sections| && Names(path, sections)[j] == PartName(path, i, Cpio);
      PartNameInjective(path, j, sections[j].kind, i, Cpio);
    }
  }
}
