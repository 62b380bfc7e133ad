/**
 The object keys of src/tiered/keys.rs. A key is modelled as what it identifies; `Render` is the
 string the backend sees, and no two keys share a string.
 */
module StoreKeys {

  datatype Key =
    | ManifestKey
    | PageGroup(gid: nat, version: nat)
    | Override(gid: nat, frame: nat, version: nat)
    | InteriorChunk(chunk: nat, version: nat)
    | IndexChunk(chunk: nat, version: nat)

  function Digit(d: nat): char
    requires d < 10
  {
    (d + 48) as char
  }

  predicate IsDigit(c: char) { 48 <= c as int <= 57 }

  function Decimal(n: nat): (s: string)
    ensures s != [] && forall i :: 0 <= i < |s| ==> IsDigit(s[i])
  {
    if n < 10 then [Digit(n)] else Decimal(n / 10) + [Digit(n % 10)]
  }

  function Render(k: Key): string {
    match k
    case ManifestKey => "manifest.msgpack"
    case PageGroup(gid, version) => "p/d/" + (Decimal(gid) + ("_v" + Decimal(version)))
    case Override(gid, frame, version) =>
      "p/d/" + (Decimal(gid) + ("_f" + (Decimal(frame) + ("_v" + Decimal(version)))))
    case InteriorChunk(chunk, version) => "p/it/" + (Decimal(chunk) + ("_v" + Decimal(version)))
    case IndexChunk(chunk, version) => "p/ix/" + (Decimal(chunk) + ("_v" + Decimal(version)))
  }

  /** Keys written out. */
  lemma KnownKeys()
    ensures Render(ManifestKey) == "manifest.msgpack" && Render(PageGroup(0, 1)) == "p/d/0_v1"
    ensures Render(InteriorChunk(3, 5)) == "p/it/3_v5" && Render(IndexChunk(1, 2)) == "p/ix/1_v2"
  {
  }

  lemma KnownOverride()
    ensures Render(Override(5, 3, 10)) == "p/d/5_f3_v10"
  {
    assert Decimal(1) == "1" && Decimal(10) == "10" && Decimal(5) == "5" && Decimal(3) == "3";
    hide Decimal;
    assert "_v" + "10" == "_v10" && "3" + "_v10" == "3_v10" && "_f" + "3_v10" == "_f3_v10";
    assert "5" + "_f3_v10" == "5_f3_v10";
  }

  // ---------- no two keys share a string ----------

  function Value(s: string): int {
    if s == [] then 0 else 10 * Value(s[..|s| - 1]) + (s[|s| - 1] as int - 48)
  }

  lemma {:induction false} DecimalReadsBack(n: nat)
    ensures Value(Decimal(n)) == n
  {
    if n < 10 {
      assert Decimal(n)[..0] == [];
    } else {
      DecimalReadsBack(n / 10);
      assert Decimal(n)[..|Decimal(n)| - 1] == Decimal(n / 10);
    }
  }

  predicate EndsNumber(rest: string) { rest == [] || !IsDigit(rest[0]) }

  lemma ShorterLeavesDigit(a: string, rest: string, b: string, rest': string)
    requires |a| < |b| && a + rest == b + rest' && forall i :: 0 <= i < |b| ==> IsDigit(b[i])
    ensures !EndsNumber(rest)
  {
    assert (a + rest)[|a|] == b[|a|];
    assert rest == (a + rest)[|a|..];
  }

  /** A number followed by no digit can be split off in one way. */
  lemma {:induction false} NumberIsPrefixFree(n: nat, rest: string, n': nat, rest': string)
    requires EndsNumber(rest) && EndsNumber(rest') && Decimal(n) + rest == Decimal(n') + rest'
    ensures n == n' && rest == rest'
  {
    var a, b := Decimal(n), Decimal(n');
    if |a| < |b| {
      ShorterLeavesDigit(a, rest, b, rest');
    } else if |b| < |a| {
      ShorterLeavesDigit(b, rest', a, rest);
    }
    assert a == (a + rest)[..|a|] && b == (b + rest')[..|b|];
    assert rest == (a + rest)[|a|..] && rest' == (b + rest')[|b|..];
    DecimalReadsBack(n);
    DecimalReadsBack(n');
  }

  /** Equal strings after equal-length literals: the literals and the tails agree. */
  lemma SplitLiteral(a: string, rest: string, b: string, rest': string)
    requires |a| == |b| && a + rest == b + rest'
    ensures a == b && rest == rest'
  {
    assert a == (a + rest)[..|a|] && b == (b + rest')[..|b|];
    assert rest == (a + rest)[|a|..] && rest' == (b + rest')[|b|..];
  }

  lemma {:induction false} VersionedReadsBack(n: nat, version: nat, n': nat, version': nat)
    requires Decimal(n) + ("_v" + Decimal(version)) == Decimal(n') + ("_v" + Decimal(version'))
    ensures n == n' && version == version'
  {
    NumberIsPrefixFree(n, "_v" + Decimal(version), n', "_v" + Decimal(version'));
    SplitLiteral("_v", Decimal(version), "_v", Decimal(version'));
    assert Decimal(version) + "" == Decimal(version) && Decimal(version') + "" == Decimal(version');
    NumberIsPrefixFree(version, "", version', "");
  }

  lemma GroupAndOverrideDiffer(gid: nat, version: nat, gid': nat, frame: nat, version': nat)
    ensures Render(PageGroup(gid, version)) != Render(Override(gid', frame, version'))
  {
    var a, b := "_v" + Decimal(version), "_f" + (Decimal(frame) + ("_v" + Decimal(version')));
    assert a[1] == 'v' && b[1] == 'f';
    if Render(PageGroup(gid, version)) == Render(Override(gid', frame, version')) {
      SplitLiteral("p/d/", Decimal(gid) + a, "p/d/", Decimal(gid') + b);
      NumberIsPrefixFree(gid, a, gid', b);
    }
  }

  lemma OverridesReadBack(k: Key, k': Key)
    requires k.Override? && k'.Override? && Render(k) == Render(k')
    ensures k == k'
  {
    var a, b := Decimal(k.frame) + ("_v" + Decimal(k.version)), Decimal(k'.frame) + ("_v" + Decimal(k'.version));
    SplitLiteral("p/d/", Decimal(k.gid) + ("_f" + a), "p/d/", Decimal(k'.gid) + ("_f" + b));
    NumberIsPrefixFree(k.gid, "_f" + a, k'.gid, "_f" + b);
    SplitLiteral("_f", a, "_f", b);
    VersionedReadsBack(k.frame, k.version, k'.frame, k'.version);
  }

  /** Distinct keys are distinct strings: per group and version, per kind, and beside the manifest. */
  lemma RenderIsInjective(k: Key, k': Key)
    requires Render(k) == Render(k')
    ensures k == k'
  {
    var a, b := Render(k), Render(k');
    if k.ManifestKey? || k'.ManifestKey? {
      assert a[0] == b[0];
    } else if k.PageGroup? && k'.Override? {
      GroupAndOverrideDiffer(k.gid, k.version, k'.gid, k'.frame, k'.version);
    } else if k.Override? && k'.PageGroup? {
      GroupAndOverrideDiffer(k'.gid, k'.version, k.gid, k.frame, k.version);
    } else if k.Override? && k'.Override? {
      OverridesReadBack(k, k');
    } else {
      assert a[2] == b[2] && a[3] == b[3];
      if k.PageGroup? && k'.PageGroup? {
        SplitLiteral("p/d/", a[4..], "p/d/", b[4..]);
        VersionedReadsBack(k.gid, k.version, k'.gid, k'.version);
      } else if k.InteriorChunk? && k'.InteriorChunk? {
        SplitLiteral("p/it/", a[5..], "p/it/", b[5..]);
        VersionedReadsBack(k.chunk, k.version, k'.chunk, k'.version);
      } else if k.IndexChunk? && k'.IndexChunk? {
        SplitLiteral("p/ix/", a[5..], "p/ix/", b[5..]);
        VersionedReadsBack(k.chunk, k.version, k'.chunk, k'.version);
      }
    }
  }
}
