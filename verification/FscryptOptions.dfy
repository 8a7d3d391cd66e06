/**
 * The textual form of file encryption options: ParseOptionsForApiLevel and
 * OptionsToStringForApiLevel, which checks itself by parsing what it printed.
 */
module FscryptOptions {
  import opened Common

  const AES_256_XTS: int := 1
  const AES_256_CTS: int := 4
  const ADIANTUM: int := 9
  const AES_256_HEH: int := 126
  const PRIVATE: int := 127

  const PAD_4: bv32 := 0
  const PAD_16: bv32 := 2
  const DIRECT_KEY: bv32 := 4
  const IV_INO_LBLK_64: bv32 := 8
  const IV_INO_LBLK_32: bv32 := 16

  const API_Q: nat := 29

  datatype Options = Options(version: int, contents: int, filenames: int, flags: bv32, wrapped: bool)

  datatype Mode = Mode(name: string, id: int)

  const ContentsModes: seq<Mode> :=
    [Mode("aes-256-xts", AES_256_XTS), Mode("software", AES_256_XTS), Mode("adiantum", ADIANTUM), Mode("ice", PRIVATE)]

  const FilenamesModes: seq<Mode> :=
    [Mode("aes-256-cts", AES_256_CTS), Mode("aes-256-heh", AES_256_HEH), Mode("adiantum", ADIANTUM)]

  /** The first mode with this name. */
  function LookupByName(modes: seq<Mode>, name: string): Option<int>
  {
    if modes == [] then None
    else if modes[0].name == name then Some(modes[0].id)
    else LookupByName(modes[1..], name)
  }

  /** The first name of this mode. */
  function LookupById(modes: seq<Mode>, id: int): Option<string>
  {
    if modes == [] then None
    else if modes[0].id == id then Some(modes[0].name)
    else LookupById(modes[1..], id)
  }

  // --------------------------------------------------------------------- splitting

  /** android::base::Split at one delimiter; the empty string is one empty piece. */
  function Split(s: string, c: char): (r: seq<string>)
    ensures |r| > 0
  {
    if s == "" then [""]
    else if s[0] == c then [""] + Split(s[1..], c)
    else
      var rest := Split(s[1..], c);
      [[s[0]] + rest[0]] + rest[1..]
  }

  function Join(pieces: seq<string>, c: char): string
    requires |pieces| > 0
  {
    if |pieces| == 1 then pieces[0] else pieces[0] + [c] + Join(pieces[1..], c)
  }

  lemma {:induction false} SplitFirst(a: string, b: string, c: char)
    requires c !in a
    ensures Split(a + [c] + b, c) == [a] + Split(b, c)
  {
    var s := a + [c] + b;
    if a == "" {
      assert s[1..] == b;
    } else {
      SplitFirst(a[1..], b, c);
      assert s[1..] == a[1..] + [c] + b;
      assert [a[0]] + a[1..] == a;
    }
  }

  lemma {:induction false} SplitWhole(a: string, c: char)
    requires c !in a
    ensures Split(a, c) == [a]
  {
    if a != "" {
      SplitWhole(a[1..], c);
      assert [a[0]] + a[1..] == a;
    }
  }

  /** Splitting undoes joining. */
  lemma {:induction false} SplitJoin(pieces: seq<string>, c: char)
    requires |pieces| > 0 && forall i :: 0 <= i < |pieces| ==> c !in pieces[i]
    ensures Split(Join(pieces, c), c) == pieces
  {
    if |pieces| == 1 {
      SplitWhole(pieces[0], c);
    } else {
      SplitJoin(pieces[1..], c);
      SplitFirst(pieces[0], Join(pieces[1..], c), c);
    }
  }

  // ----------------------------------------------------------------------- parsing

  function ApplyFlag(o: Options, flag: string): Option<Options>
  {
    if flag == "v1" then Some(o.(version := 1))
    else if flag == "v2" then Some(o.(version := 2))
    else if flag == "inlinecrypt_optimized" then Some(o.(flags := Set64(o.flags)))
    else if flag == "emmc_optimized" then Some(o.(flags := Set32(o.flags)))
    else if flag == "wrappedkey_v0" then Some(o.(wrapped := true))
    else None
  }

  function ApplyFlags(o: Options, flags: seq<string>): Option<Options>
  {
    if flags == [] then Some(o)
    else
      var p := ApplyFlags(o, flags[..|flags| - 1]);
      if p.None? then None else ApplyFlag(p.value, flags[|flags| - 1])
  }

  /** Padding, the key mode of Adiantum, and the rule of one method of IV generation. */
  function Complete(api: nat, o: Options): Option<Options>
  {
    var pad := if api <= API_Q && o.version == 1 && o.filenames == AES_256_CTS then PAD_4 else PAD_16;
    var direct := if o.contents == ADIANTUM then DIRECT_KEY else 0;
    var p := o.(flags := o.flags | pad | direct);
    if (o.contents == ADIANTUM) != (o.filenames == ADIANTUM) then None
    else if IvMethods(p.flags) > 1 then None
    else Some(p)
  }

  function IvMethods(flags: bv32): nat
  {
    (if flags & IV_INO_LBLK_64 != 0 then 1 else 0) + (if flags & IV_INO_LBLK_32 != 0 then 1 else 0)
    + (if flags & DIRECT_KEY != 0 then 1 else 0)
  }

  function ContentsOf(parts: seq<string>): Option<int>
  {
    if |parts| > 0 && parts[0] != "" then LookupByName(ContentsModes, parts[0]) else Some(AES_256_XTS)
  }

  function FilenamesOf(parts: seq<string>, contents: int): Option<int>
  {
    if |parts| > 1 && parts[1] != "" then LookupByName(FilenamesModes, parts[1])
    else Some(if contents == ADIANTUM then ADIANTUM else AES_256_CTS)
  }

  function FlagsOf(parts: seq<string>): seq<string>
  {
    if |parts| > 2 && parts[2] != "" then Split(parts[2], '+') else []
  }

  function DefaultVersion(api: nat): int { if api > API_Q then 2 else 1 }

  /** What a string stands for at an API level. */
  function Parse(api: nat, s: string): Option<Options>
  {
    var parts := Split(s, ':');
    if |parts| > 3 then None
    else
      var contents := ContentsOf(parts);
      if contents.None? then None
      else
        var filenames := FilenamesOf(parts, contents.value);
        if filenames.None? then None
        else
          var o := ApplyFlags(Options(DefaultVersion(api), contents.value, filenames.value, 0, false), FlagsOf(parts));
          if o.None? then None else Complete(api, o.value)
  }

  /** LookupModeByName. */
  method LookupModeByName(modes: seq<Mode>, name: string) returns (r: Option<int>)
    ensures r == LookupByName(modes, name)
  {
    var i := 0;
    assert modes[0..] == modes;
    while i < |modes|
      invariant 0 <= i <= |modes| && LookupByName(modes[i..], name) == LookupByName(modes, name)
    {
      if modes[i].name == name {
        return Some(modes[i].id);
      }
      assert modes[i..][1..] == modes[i + 1..];
      i := i + 1;
    }
    return None;
  }

  /** LookupModeById. */
  method LookupModeById(modes: seq<Mode>, id: int) returns (r: Option<string>)
    ensures r == LookupById(modes, id)
  {
    var i := 0;
    assert modes[0..] == modes;
    while i < |modes|
      invariant 0 <= i <= |modes| && LookupById(modes[i..], id) == LookupById(modes, id)
    {
      if modes[i].id == id {
        return Some(modes[i].name);
      }
      assert modes[i..][1..] == modes[i + 1..];
      i := i + 1;
    }
    return None;
  }

  /** ParseOptionsForApiLevel, with its loop over the flags. */
  method ParseOptionsForApiLevel(api: nat, s: string) returns (r: Option<Options>)
    ensures r == Parse(api, s)
  {
    hide Split, ApplyFlag, Complete, LookupByName;
    var parts := Split(s, ':');
    if |parts| > 3 {
      return None;
    }
    var contents := AES_256_XTS;
    if |parts| > 0 && parts[0] != "" {
      var mode := LookupModeByName(ContentsModes, parts[0]);
      if mode.None? {
        return None;
      }
      contents := mode.value;
    }
    var filenames := if contents == ADIANTUM then ADIANTUM else AES_256_CTS;
    if |parts| > 1 && parts[1] != "" {
      var mode := LookupModeByName(FilenamesModes, parts[1]);
      if mode.None? {
        return None;
      }
      filenames := mode.value;
    }
    var o := Options(DefaultVersion(api), contents, filenames, 0, false);
    ghost var start := o;
    if |parts| > 2 && parts[2] != "" {
      var flags := Split(parts[2], '+');
      var i := 0;
      while i < |flags|
        invariant 0 <= i <= |flags| && ApplyFlags(start, flags[..i]) == Some(o)
      {
        FlagsStep(start, flags, i);
        var next := ApplyFlag(o, flags[i]);
        if next.None? {
          FlagsFail(start, flags, i + 1);
          return None;
        }
        o := next.value;
        i := i + 1;
      }
      assert flags[..|flags|] == flags;
    }
    r := Complete(api, o);
  }

  lemma FlagsStep(o: Options, flags: seq<string>, i: nat)
    requires i < |flags|
    ensures ApplyFlags(o, flags[..i + 1]) ==
              var p := ApplyFlags(o, flags[..i]); if p.None? then None else ApplyFlag(p.value, flags[i])
  {
    assert flags[..i + 1][..i] == flags[..i];
  }

  /** An unknown flag is not made good by what follows. */
  lemma {:induction false} FlagsFail(o: Options, flags: seq<string>, i: nat)
    requires i <= |flags| && ApplyFlags(o, flags[..i]).None?
    ensures ApplyFlags(o, flags).None?
    decreases |flags|
  {
    if i == |flags| {
      assert flags[..i] == flags;
    } else {
      assert flags[..|flags| - 1][..i] == flags[..i];
      FlagsFail(o, flags[..|flags| - 1], i);
    }
  }

  // ---------------------------------------------------------------------- printing

  function Digits(n: nat): string
  {
    if n < 10 then ["0123456789"[n]] else Digits(n / 10) + ["0123456789"[n % 10]]
  }

  /** std::to_string. */
  function Decimal(v: int): string
  {
    if v < 0 then "-" + Digits(-v) else Digits(v)
  }

  function FlagNames(o: Options): (r: seq<string>)
    ensures |r| > 0
  {
    ["v" + Decimal(o.version)]
    + (if o.flags & IV_INO_LBLK_64 != 0 then ["inlinecrypt_optimized"] else [])
    + (if o.flags & IV_INO_LBLK_32 != 0 then ["emmc_optimized"] else [])
    + (if o.wrapped then ["wrappedkey_v0"] else [])
  }

  function Text(o: Options): Option<string>
  {
    var contents, filenames := LookupById(ContentsModes, o.contents), LookupById(FilenamesModes, o.filenames);
    if contents.None? || filenames.None? then None
    else Some(contents.value + ":" + filenames.value + ":" + Join(FlagNames(o), '+'))
  }

  datatype Printed = Printed(text: string) | UnknownMode | InternalError

  function Print(api: nat, o: Options): Printed
  {
    match Text(o)
    case None => UnknownMode
    case Some(t) => if Parse(api, t) == Some(o) then Printed(t) else InternalError
  }

  /** OptionsToStringForApiLevel. */
  method OptionsToStringForApiLevel(api: nat, o: Options) returns (r: Printed)
    ensures r == Print(api, o)
  {
    hide Parse, LookupById, Decimal, Join;
    JoinOne("v" + Decimal(o.version), '+');
    var contents := LookupModeById(ContentsModes, o.contents);
    if contents.None? {
      return UnknownMode;
    }
    var filenames := LookupModeById(FilenamesModes, o.filenames);
    if filenames.None? {
      return UnknownMode;
    }
    var version := "v" + Decimal(o.version);
    ghost var names := [version];
    var flags := version;
    assert flags == Join(names, '+');
    if o.flags & IV_INO_LBLK_64 != 0 {
      JoinMore(names, "inlinecrypt_optimized", '+');
      flags := flags + "+" + "inlinecrypt_optimized";
      names := names + ["inlinecrypt_optimized"];
    }
    if o.flags & IV_INO_LBLK_32 != 0 {
      JoinMore(names, "emmc_optimized", '+');
      flags := flags + "+" + "emmc_optimized";
      names := names + ["emmc_optimized"];
    }
    if o.wrapped {
      JoinMore(names, "wrappedkey_v0", '+');
      flags := flags + "+" + "wrappedkey_v0";
      names := names + ["wrappedkey_v0"];
    }
    assert names == FlagNames(o) && flags == Join(names, '+');
    var text := contents.value + ":" + filenames.value + ":" + flags;
    var check := ParseOptionsForApiLevel(api, text);
    if check != Some(o) {
      return InternalError;
    }
    return Printed(text);
  }

  lemma JoinOne(p: string, c: char)
    ensures Join([p], c) == p
  {
  }

  lemma {:induction false} JoinMore(pieces: seq<string>, p: string, c: char)
    requires |pieces| > 0
    ensures Join(pieces + [p], c) == Join(pieces, c) + [c] + p
  {
    var all := pieces + [p];
    if |pieces| == 1 {
      assert all[1..] == [p];
      assert Join(all, c) == pieces[0] + [c] + Join([p], c);
    } else {
      JoinMore(pieces[1..], p, c);
      assert all[1..] == pieces[1..] + [p];
    }
  }

  // ------------------------------------------------------------------ the round trip

  /** Options as they are before padding and key mode are added. */
  predicate Raw(b: Options)
  {
    && (b.contents == AES_256_XTS || b.contents == ADIANTUM || b.contents == PRIVATE)
    && (b.filenames == AES_256_CTS || b.filenames == AES_256_HEH || b.filenames == ADIANTUM)
    && (b.version == 1 || b.version == 2)
    && RawFlags(b.flags)
  }

  predicate RawFlags(f: bv32) { f == 0 || f == 8 || f == 16 || f == 24 }

  lemma OrFlags(f: bv32)
    requires RawFlags(f)
    ensures RawFlags(Set64(f)) && RawFlags(Set32(f))
  {
    if f == 0 {
    } else if f == 8 {
    } else if f == 16 {
    }
  }

  function Set64(f: bv32): bv32 { f | IV_INO_LBLK_64 }

  function Set32(f: bv32): bv32 { f | IV_INO_LBLK_32 }

  /** What a flag can do. */
  predicate FlagDoes(o: Options, p: Options)
  {
    && p.contents == o.contents && p.filenames == o.filenames
    && (p.version == o.version || p.version == 1 || p.version == 2)
    && (p.flags == o.flags || p.flags == Set64(o.flags) || p.flags == Set32(o.flags))
  }

  lemma FlagOutcome(o: Options, flag: string)
    requires ApplyFlag(o, flag).Some?
    ensures FlagDoes(o, ApplyFlag(o, flag).value)
  {
  }

  lemma DoneKeepsRaw(o: Options, p: Options)
    requires Raw(o) && FlagDoes(o, p)
    ensures Raw(p)
  {
    hide RawFlags, Set64, Set32;
    OrFlags(o.flags);
  }

  lemma FlagKeepsRaw(o: Options, flag: string)
    requires Raw(o)
    ensures ApplyFlag(o, flag).Some? ==> Raw(ApplyFlag(o, flag).value)
  {
    hide ApplyFlag, FlagDoes, Raw;
    if ApplyFlag(o, flag).Some? {
      FlagOutcome(o, flag);
      DoneKeepsRaw(o, ApplyFlag(o, flag).value);
    }
  }

  lemma {:induction false} FlagsKeepRaw(o: Options, flags: seq<string>)
    requires Raw(o)
    ensures ApplyFlags(o, flags).Some? ==> Raw(ApplyFlags(o, flags).value)
  {
    hide ApplyFlag, Raw;
    if flags != [] {
      FlagsKeepRaw(o, flags[..|flags| - 1]);
      var p := ApplyFlags(o, flags[..|flags| - 1]);
      if p.Some? {
        FlagKeepsRaw(p.value, flags[|flags| - 1]);
      }
    }
  }

  lemma {:induction false} FoundByName(modes: seq<Mode>, name: string)
    requires LookupByName(modes, name).Some?
    ensures exists i :: 0 <= i < |modes| && modes[i] == Mode(name, LookupByName(modes, name).value)
  {
    if modes[0].name == name {
      assert modes[0] == Mode(name, LookupByName(modes, name).value);
    } else {
      FoundByName(modes[1..], name);
      var i :| 0 <= i < |modes[1..]| && modes[1..][i] == Mode(name, LookupByName(modes[1..], name).value);
      assert modes[i + 1] == modes[1..][i];
    }
  }

  lemma ModeIds(name: string)
    ensures var c := LookupByName(ContentsModes, name); c.Some? ==> c.value == AES_256_XTS || c.value == ADIANTUM || c.value == PRIVATE
    ensures var f := LookupByName(FilenamesModes, name); f.Some? ==> f.value == AES_256_CTS || f.value == AES_256_HEH || f.value == ADIANTUM
  {
    hide LookupByName;
    if LookupByName(ContentsModes, name).Some? {
      FoundByName(ContentsModes, name);
    }
    if LookupByName(FilenamesModes, name).Some? {
      FoundByName(FilenamesModes, name);
    }
  }

  /** The first entry with its id gives its name, and the first with its name its id. */
  lemma {:induction false} LookupAt(modes: seq<Mode>, i: nat)
    requires i < |modes| && forall k :: 0 <= k < i ==> modes[k].id != modes[i].id && modes[k].name != modes[i].name
    ensures LookupById(modes, modes[i].id) == Some(modes[i].name) && LookupByName(modes, modes[i].name) == Some(modes[i].id)
  {
    if i > 0 {
      LookupAt(modes[1..], i - 1);
    }
  }

  /** Whatever is parsed is the completion of raw options. */
  lemma ParsedIsCompleted(api: nat, s: string) returns (b: Options)
    requires Parse(api, s).Some?
    ensures Raw(b) && Complete(api, b) == Parse(api, s)
  {
    hide Split, LookupByName, ApplyFlags, Complete;
    var parts := Split(s, ':');
    if |parts| > 0 {
      ModeIds(parts[0]);
    }
    if |parts| > 1 {
      ModeIds(parts[1]);
    }
    var contents := ContentsOf(parts);
    var filenames := FilenamesOf(parts, contents.value);
    var start := Options(DefaultVersion(api), contents.value, filenames.value, 0, false);
    assert Raw(start);
    FlagsKeepRaw(start, FlagsOf(parts));
    b := ApplyFlags(start, FlagsOf(parts)).value;
  }

  /** The completion still shows which raw flags were set; never both. */
  lemma CompletedFlags(api: nat, b: Options)
    requires Raw(b) && Complete(api, b).Some?
    ensures var o := Complete(api, b).value;
            && o == b.(flags := o.flags) && b.flags != 24
            && (o.flags & IV_INO_LBLK_64 != 0 <==> b.flags == 8)
            && (o.flags & IV_INO_LBLK_32 != 0 <==> b.flags == 16)
  {
    if b.flags == 0 {
    } else if b.flags == 8 {
    } else if b.flags == 16 {
    } else {
    }
  }

  /** Some name of a mode is printed for it, and parsed as it. */
  predicate Named(modes: seq<Mode>, id: int)
  {
    var n := LookupById(modes, id);
    n.Some? && n.value != "" && ':' !in n.value && LookupByName(modes, n.value) == Some(id)
  }

  lemma NamedAt(modes: seq<Mode>, i: nat)
    requires i < |modes| && forall k :: 0 <= k < i ==> modes[k].id != modes[i].id && modes[k].name != modes[i].name
    requires modes[i].name != "" && ':' !in modes[i].name
    ensures Named(modes, modes[i].id)
  {
    LookupAt(modes, i);
  }

  lemma ContentsNamed(contents: int)
    requires contents == AES_256_XTS || contents == ADIANTUM || contents == PRIVATE
    ensures Named(ContentsModes, contents)
  {
    hide Named;
    var m := ContentsModes;
    assert |m[0].name| == 11 && |m[1].name| == 8 && |m[2].name| == 8 && |m[3].name| == 3;
    assert m[1].name[0] == 's' && m[2].name[0] == 'a';
    var i := if contents == AES_256_XTS then 0 else if contents == ADIANTUM then 2 else 3;
    assert ':' !in "aes-256-xts" && ':' !in "adiantum" && ':' !in "ice";
    NamedAt(m, i);
  }

  lemma FilenamesNamed(filenames: int)
    requires filenames == AES_256_CTS || filenames == AES_256_HEH || filenames == ADIANTUM
    ensures Named(FilenamesModes, filenames)
  {
    hide Named;
    var m := FilenamesModes;
    assert |m[0].name| == 11 && |m[1].name| == 11 && |m[2].name| == 8;
    assert m[0].name[8] == 'c' && m[1].name[8] == 'h';
    var i := if filenames == AES_256_CTS then 0 else if filenames == AES_256_HEH then 1 else 2;
    assert ':' !in "aes-256-cts" && ':' !in "aes-256-heh" && ':' !in "adiantum";
    NamedAt(m, i);
  }

  lemma VersionWord(v: int)
    requires v == 1 || v == 2
    ensures "v" + Decimal(v) == if v == 1 then "v1" else "v2"
  {
    assert Digits(1) == "1" && Digits(2) == "2";
  }

  predicate Word(w: string) { '+' !in w && ':' !in w }

  lemma Words()
    ensures Word("inlinecrypt_optimized") && Word("emmc_optimized") && Word("wrappedkey_v0") && Word("v1") && Word("v2")
  {
  }

  lemma FlagWords(o: Options)
    requires o.version == 1 || o.version == 2
    ensures forall i :: 0 <= i < |FlagNames(o)| ==> Word(FlagNames(o)[i])
    ensures FlagNames(o)[0] == if o.version == 1 then "v1" else "v2"
  {
    hide Word, Decimal;
    VersionWord(o.version);
    Words();
  }

  lemma {:induction false} JoinHas(pieces: seq<string>, c: char, x: char)
    requires |pieces| > 0 && c != x && forall i :: 0 <= i < |pieces| ==> x !in pieces[i]
    ensures x !in Join(pieces, c) && (pieces[0] != "" ==> Join(pieces, c) != "")
  {
    if |pieces| > 1 {
      JoinHas(pieces[1..], c, x);
    }
  }

  /** The flags that are printed give the raw options back. */
  lemma NamesApply(start: Options, o: Options)
    requires start.version == 1 || start.version == 2
    requires (o.version == 1 || o.version == 2) && start.flags == 0 && !start.wrapped
    requires !(o.flags & IV_INO_LBLK_64 != 0 && o.flags & IV_INO_LBLK_32 != 0)
    ensures ApplyFlags(start, FlagNames(o)) ==
              Some(start.(version := o.version, wrapped := o.wrapped,
                          flags := if o.flags & IV_INO_LBLK_64 != 0 then 8 else if o.flags & IV_INO_LBLK_32 != 0 then 16 else 0))
  {
    hide ApplyFlag, ApplyFlags, Decimal;
    VersionWord(o.version);
    var v := if o.version == 1 then "v1" else "v2";
    var o1 := start.(version := o.version);
    ApplyNone(start);
    ApplyMore(start, [], v, start);
    FlagEffects(start, o.version);
    assert [] + [v] == [v];
    var names, p := [v], o1;
    if o.flags & IV_INO_LBLK_64 != 0 {
      FlagEffects(p, o.version);
      ApplyMore(start, names, "inlinecrypt_optimized", p);
      names, p := names + ["inlinecrypt_optimized"], p.(flags := 8);
    }
    if o.flags & IV_INO_LBLK_32 != 0 {
      FlagEffects(p, o.version);
      ApplyMore(start, names, "emmc_optimized", p);
      names, p := names + ["emmc_optimized"], p.(flags := 16);
    }
    if o.wrapped {
      FlagEffects(p, o.version);
      ApplyMore(start, names, "wrappedkey_v0", p);
      names, p := names + ["wrappedkey_v0"], p.(wrapped := true);
    }
    assert names == FlagNames(o);
  }

  lemma ApplyNone(o: Options)
    ensures ApplyFlags(o, []) == Some(o)
  {
  }

  lemma ApplyMore(start: Options, flags: seq<string>, flag: string, p: Options)
    requires ApplyFlags(start, flags) == Some(p)
    ensures ApplyFlags(start, flags + [flag]) == ApplyFlag(p, flag)
  {
    hide ApplyFlag;
    var all := flags + [flag];
    assert all[..|all| - 1] == flags;
  }

  lemma FlagEffects(o: Options, v: int)
    requires v == 1 || v == 2
    ensures ApplyFlag(o, if v == 1 then "v1" else "v2") == Some(o.(version := v))
    ensures o.flags == 0 ==> ApplyFlag(o, "inlinecrypt_optimized") == Some(o.(flags := 8))
    ensures o.flags == 0 ==> ApplyFlag(o, "emmc_optimized") == Some(o.(flags := 16))
    ensures ApplyFlag(o, "wrappedkey_v0") == Some(o.(wrapped := true))
  {
    assert "v1"[1] == '1' && "v2"[1] == '2';
    assert |"v1"| == 2 && |"v2"| == 2 && |"inlinecrypt_optimized"| == 21 && |"emmc_optimized"| == 14 && |"wrappedkey_v0"| == 13;
  }

  /** Printing the completion of raw options and parsing the text gives them back. */
  lemma TextRoundTrip(api: nat, b: Options)
    requires Raw(b) && Complete(api, b).Some?
    ensures var o := Complete(api, b).value;
            Text(o).Some? && Parse(api, Text(o).value) == Some(o)
  {
    hide Complete, Split, Join, ApplyFlags, FlagNames, LookupByName, LookupById;
    var o := Complete(api, b).value;
    CompletedFlags(api, b);
    ContentsNamed(o.contents);
    FilenamesNamed(o.filenames);
    FlagWords(o);
    var names := FlagNames(o);
    var contents, filenames := LookupById(ContentsModes, o.contents).value, LookupById(FilenamesModes, o.filenames).value;
    var third := Join(names, '+');
    JoinHas(names, '+', ':');
    SplitThree(contents, filenames, third);
    SplitJoin(names, '+');
    NamesApply(Options(DefaultVersion(api), o.contents, o.filenames, 0, false), o);
  }

  lemma SplitThree(a: string, b: string, c: string)
    requires ':' !in a && ':' !in b && ':' !in c
    ensures Split(a + ":" + b + ":" + c, ':') == [a, b, c]
  {
    hide Split;
    SplitFirst(a, b + ":" + c, ':');
    SplitFirst(b, c, ':');
    SplitWhole(c, ':');
    assert a + ":" + b + ":" + c == a + ":" + (b + ":" + c);
  }

  /** Whatever was parsed can be printed, without internal error, and the text parses to the same options. */
  lemma ParsedPrints(api: nat, s: string)
    requires Parse(api, s).Some?
    ensures var r := Print(api, Parse(api, s).value);
            r.Printed? && Parse(api, r.text) == Parse(api, s)
  {
    hide Parse, Text, Complete, Raw;
    var b := ParsedIsCompleted(api, s);
    TextRoundTrip(api, b);
  }

  /** Options can be printed exactly if some string stands for them. */
  lemma PrintsIffParsed(api: nat, o: Options)
    ensures Print(api, o).Printed? <==> exists s :: Parse(api, s) == Some(o)
  {
    hide Parse, Text;
    if s :| Parse(api, s) == Some(o) {
      ParsedPrints(api, s);
    }
    if Print(api, o).Printed? {
      assert Parse(api, Print(api, o).text) == Some(o);
    }
  }

  // ------------------------------------------------------------- what a string stands for

  predicate Known(flag: string)
  {
    flag == "v1" || flag == "v2" || flag == "inlinecrypt_optimized" || flag == "emmc_optimized" || flag == "wrappedkey_v0"
  }

  /** The version the last version flag asks for. */
  function VersionOf(flags: seq<string>, none: int): int
  {
    if flags == [] then none
    else if flags[|flags| - 1] == "v1" then 1
    else if flags[|flags| - 1] == "v2" then 2
    else VersionOf(flags[..|flags| - 1], none)
  }

  lemma {:induction false} LastVersion(flags: seq<string>, none: int, i: nat)
    requires i < |flags| && (flags[i] == "v1" || flags[i] == "v2") && forall k :: i < k < |flags| ==> flags[k] != "v1" && flags[k] != "v2"
    ensures VersionOf(flags, none) == if flags[i] == "v1" then 1 else 2
    decreases |flags|
  {
    if i < |flags| - 1 {
      LastVersion(flags[..|flags| - 1], none, i);
    }
  }

  lemma {:induction false} NoVersion(flags: seq<string>, none: int)
    requires forall k :: 0 <= k < |flags| ==> flags[k] != "v1" && flags[k] != "v2"
    ensures VersionOf(flags, none) == none
  {
    if flags != [] {
      NoVersion(flags[..|flags| - 1], none);
    }
  }

  lemma WordsDiffer(w: string)
    ensures w == "v2" ==> w != "v1"
    ensures w == "inlinecrypt_optimized" ==> w != "v1" && w != "v2"
    ensures w == "emmc_optimized" ==> w != "v1" && w != "v2" && w != "inlinecrypt_optimized"
    ensures w == "wrappedkey_v0" ==> w != "v1" && w != "v2" && w != "inlinecrypt_optimized" && w != "emmc_optimized"
  {
    assert "v1"[1] == '1' && "v2"[1] == '2';
    assert |"v1"| == 2 && |"v2"| == 2 && |"inlinecrypt_optimized"| == 21 && |"emmc_optimized"| == 14 && |"wrappedkey_v0"| == 13;
  }

  /** The two methods of IV generation that flags can ask for. */
  function IvBits(inline: bool, emmc: bool): bv32
  {
    if inline && emmc then 24 else if inline then 8 else if emmc then 16 else 0
  }

  lemma IvBitsMore(inline: bool, emmc: bool)
    ensures Set64(IvBits(inline, emmc)) == IvBits(true, emmc) && Set32(IvBits(inline, emmc)) == IvBits(inline, true)
  {
    if inline && emmc {
    } else if inline {
    } else if emmc {
    }
  }

  /** What the flags make of options that have none yet. */
  function Flagged(start: Options, flags: seq<string>): Options
  {
    start.(version := VersionOf(flags, start.version), wrapped := "wrappedkey_v0" in flags,
           flags := IvBits("inlinecrypt_optimized" in flags, "emmc_optimized" in flags))
  }

  lemma FlagMeans(start: Options, flags: seq<string>, w: string)
    ensures ApplyFlag(Flagged(start, flags), w) == if Known(w) then Some(Flagged(start, flags + [w])) else None
  {
    hide Set64, Set32, IvBits;
    WordsDiffer(w);
    var more := flags + [w];
    assert more[..|more| - 1] == flags;
    IvBitsMore("inlinecrypt_optimized" in flags, "emmc_optimized" in flags);
  }

  lemma {:induction false} FlagsMean(start: Options, flags: seq<string>)
    requires start.flags == 0 && !start.wrapped
    ensures ApplyFlags(start, flags) == if forall k :: 0 <= k < |flags| ==> Known(flags[k]) then Some(Flagged(start, flags)) else None
  {
    hide ApplyFlag, Known, Flagged;
    if flags == [] {
      FlaggedNone(start);
    } else {
      var init, w := flags[..|flags| - 1], flags[|flags| - 1];
      assert flags == init + [w];
      FlagsMean(start, init);
      FlagMeans(start, init, w);
    }
  }

  lemma FlaggedNone(start: Options)
    requires start.flags == 0 && !start.wrapped
    ensures Flagged(start, []) == start
  {
  }

  lemma ContentsMeans(name: string)
    ensures LookupByName(ContentsModes, name) ==
              if name == "aes-256-xts" || name == "software" then Some(1)
              else if name == "adiantum" then Some(9) else if name == "ice" then Some(127) else None
  {
    hide LookupByName;
    var m := ContentsModes;
    NextByName(m, name);
    NextByName(m[1..], name);
    NextByName(m[2..], name);
    NextByName(m[3..], name);
    assert m[1..][1..] == m[2..] && m[2..][1..] == m[3..] && m[3..][1..] == [];
    NothingByName(name);
  }

  lemma FilenamesMeans(name: string)
    ensures LookupByName(FilenamesModes, name) ==
              if name == "aes-256-cts" then Some(4) else if name == "aes-256-heh" then Some(126)
              else if name == "adiantum" then Some(9) else None
  {
    hide LookupByName;
    var m := FilenamesModes;
    NextByName(m, name);
    NextByName(m[1..], name);
    NextByName(m[2..], name);
    assert m[1..][1..] == m[2..] && m[2..][1..] == [];
    NothingByName(name);
  }

  lemma NextByName(modes: seq<Mode>, name: string)
    requires modes != []
    ensures LookupByName(modes, name) == if modes[0].name == name then Some(modes[0].id) else LookupByName(modes[1..], name)
  {
  }

  lemma NothingByName(name: string)
    ensures LookupByName([], name) == None
  {
  }

  /** Completing options with these flag bits. */
  lemma CompleteMeans(api: nat, b: Options, inline: bool, emmc: bool)
    requires b.flags == IvBits(inline, emmc)
    ensures var o := Complete(api, b);
            var ad := b.contents == 9;
            && (o.Some? <==> (ad <==> b.filenames == 9) && !(inline && emmc) && !(ad && inline) && !(ad && emmc))
            && (o.Some? ==>
                  o.value == b.(flags := (if api <= 29 && b.version == 1 && b.filenames == 4 then 0 else 2)
                                         + (if ad then 4 else if inline then 8 else if emmc then 16 else 0)))
  {
    if inline && emmc {
      AllBits(24);
    } else if inline {
      AllBits(8);
    } else if emmc {
      AllBits(16);
    } else {
      AllBits(0);
    }
  }

  lemma AllBits(f: bv32)
    requires RawFlags(f)
    ensures f | 0 | 0 == f && f | 2 | 0 == f + 2 && f | 0 | 4 == f + 4 && f | 2 | 4 == f + 6
    ensures IvMethods(f) == (if f == 24 then 2 else if f == 0 then 0 else 1) == IvMethods(f + 2)
    ensures IvMethods(f + 4) == IvMethods(f) + 1 == IvMethods(f + 6)
  {
    if f == 0 {
    } else if f == 8 {
    } else if f == 16 {
    } else {
    }
  }

  /**
   * Which strings stand for options, and for which. Up to three fields: a contents mode, a filenames
   * mode and flags, each of which may be empty. Adiantum goes with Adiantum, takes the direct key and
   * then allows no other method of IV generation; of those the flags may ask for one. Padding is to 16
   * bytes, and to 4 only for version 1 with AES-256-CTS up to API level 29. The version is that of the
   * last version flag; without one it is 2 above that level and 1 up to it.
   */
  lemma ParseMeans(api: nat, s: string)
    ensures var parts := Split(s, ':');
            var c, f := parts[0], if |parts| > 1 then parts[1] else "";
            var flags := if |parts| > 2 && parts[2] != "" then Split(parts[2], '+') else [];
            var inline, emmc := "inlinecrypt_optimized" in flags, "emmc_optimized" in flags;
            var fad := f == "adiantum" || (f == "" && c == "adiantum");
            var o := Parse(api, s);
            && (o.Some? <==>
                  && |parts| <= 3 && (c == "" || c == "aes-256-xts" || c == "software" || c == "adiantum" || c == "ice")
                  && (f == "" || f == "aes-256-cts" || f == "aes-256-heh" || f == "adiantum")
                  && (forall k :: 0 <= k < |flags| ==> Known(flags[k]))
                  && (c == "adiantum" <==> fad)
                  && !(inline && emmc) && !(fad && inline) && !(fad && emmc))
            && (o.Some? ==>
                  && o.value.contents == (if c == "adiantum" then 9 else if c == "ice" then 127 else 1)
                  && o.value.filenames == (if fad then 9 else if f == "aes-256-heh" then 126 else 4)
                  && o.value.version == VersionOf(flags, if api > 29 then 2 else 1)
                  && (o.value.wrapped <==> "wrappedkey_v0" in flags)
                  && o.value.flags == (if api <= 29 && o.value.version == 1 && o.value.filenames == 4 then 0 else 2)
                                      + (if fad then 4 else if inline then 8 else if emmc then 16 else 0))
  {
    hide Split, ContentsOf, FilenamesOf, ApplyFlags, Complete, Known, IvBits, VersionOf;
    var parts := Split(s, ':');
    ContentsGiven(parts);
    var contents := ContentsOf(parts);
    if |parts| <= 3 && contents.Some? {
      FilenamesGiven(parts, contents.value);
      var filenames := FilenamesOf(parts, contents.value);
      if filenames.Some? {
        var flags := FlagsOf(parts);
        var start := Options(DefaultVersion(api), contents.value, filenames.value, 0, false);
        FlagsMean(start, flags);
        CompleteMeans(api, Flagged(start, flags), "inlinecrypt_optimized" in flags, "emmc_optimized" in flags);
      }
    }
  }

  lemma ContentsGiven(parts: seq<string>)
    requires |parts| > 0
    ensures var c, contents := parts[0], ContentsOf(parts);
            && (contents.Some? <==> c == "" || c == "aes-256-xts" || c == "software" || c == "adiantum" || c == "ice")
            && (contents.Some? ==> contents.value == if c == "adiantum" then 9 else if c == "ice" then 127 else 1)
  {
    hide LookupByName;
    NamesDiffer(parts[0], parts[0]);
    ContentsMeans(parts[0]);
  }

  lemma FilenamesGiven(parts: seq<string>, contents: int)
    ensures var f, filenames := if |parts| > 1 then parts[1] else "", FilenamesOf(parts, contents);
            && (filenames.Some? <==> f == "" || f == "aes-256-cts" || f == "aes-256-heh" || f == "adiantum")
            && (filenames.Some? ==>
                  filenames.value == if f == "adiantum" || (f == "" && contents == 9) then 9 else if f == "aes-256-heh" then 126 else 4)
  {
    hide LookupByName;
    var f := if |parts| > 1 then parts[1] else "";
    NamesDiffer(f, f);
    FilenamesMeans(f);
  }

  lemma NamesDiffer(c: string, f: string)
    ensures c == "adiantum" ==> c != "" && c != "aes-256-xts" && c != "software"
    ensures c == "ice" ==> c != "" && c != "aes-256-xts" && c != "software" && c != "adiantum"
    ensures c == "" ==> c != "aes-256-xts" && c != "software"
    ensures f == "adiantum" ==> f != "" && f != "aes-256-cts" && f != "aes-256-heh"
    ensures f == "aes-256-heh" ==> f != "" && f != "aes-256-cts"
    ensures f == "" ==> f != "aes-256-cts"
  {
    assert |"aes-256-xts"| == 11 && |"software"| == 8 && |"adiantum"| == 8 && |"ice"| == 3;
    assert |"aes-256-cts"| == 11 && |"aes-256-heh"| == 11;
    assert "software"[0] == 's' && "adiantum"[0] == 'a' && "aes-256-cts"[8] == 'c' && "aes-256-heh"[8] == 'h';
  }

  lemma {:induction false} FirstById(modes: seq<Mode>, i: nat)
    requires i < |modes| && forall k :: 0 <= k < i ==> modes[k].id != modes[i].id
    ensures LookupById(modes, modes[i].id) == Some(modes[i].name)
  {
    if i > 0 {
      FirstById(modes[1..], i - 1);
    }
  }

  lemma FlagText(o: Options)
    requires o.version == 1 || o.version == 2
    ensures Join(FlagNames(o), '+')
            == (if o.version == 1 then "v1" else "v2")
               + (if o.flags & 8 != 0 then "+" + "inlinecrypt_optimized" else "")
               + (if o.flags & 16 != 0 then "+" + "emmc_optimized" else "")
               + (if o.wrapped then "+" + "wrappedkey_v0" else "")
  {
    hide Join, Decimal;
    VersionWord(o.version);
    var v := "v" + Decimal(o.version);
    var inline, emmc := o.flags & 8 != 0, o.flags & 16 != 0;
    JoinOne(v, '+');
    var p1 := [v] + (if inline then ["inlinecrypt_optimized"] else []);
    var p2 := p1 + (if emmc then ["emmc_optimized"] else []);
    AddFlag([v], inline, "inlinecrypt_optimized");
    AddFlag(p1, emmc, "emmc_optimized");
    AddFlag(p2, o.wrapped, "wrappedkey_v0");
  }

  lemma AddFlag(pieces: seq<string>, here: bool, w: string)
    requires |pieces| > 0
    ensures Join(pieces + (if here then [w] else []), '+') == Join(pieces, '+') + (if here then "+" + w else "")
  {
    hide Join;
    if here {
      JoinMore(pieces, w, '+');
      assert Join(pieces, '+') + ['+'] + w == Join(pieces, '+') + ("+" + w);
    } else {
      assert pieces + [] == pieces;
      assert Join(pieces, '+') + "" == Join(pieces, '+');
    }
  }

  /** The text that is printed: both modes by their first names, the version always, and the other flags that are set. */
  lemma PrintedText(api: nat, o: Options)
    requires Print(api, o).Printed?
    ensures Print(api, o).text
            == (if o.contents == 1 then "aes-256-xts" else if o.contents == 9 then "adiantum" else "ice") + ":"
               + (if o.filenames == 4 then "aes-256-cts" else if o.filenames == 126 then "aes-256-heh" else "adiantum") + ":"
               + ((if o.version == 1 then "v1" else "v2")
                  + (if o.flags & 8 != 0 then "+" + "inlinecrypt_optimized" else "")
                  + (if o.flags & 16 != 0 then "+" + "emmc_optimized" else "")
                  + (if o.wrapped then "+" + "wrappedkey_v0" else ""))
  {
    hide Parse, Complete, Join, FlagNames, LookupById;
    var b := ParsedIsCompleted(api, Print(api, o).text);
    CompletedFlags(api, b);
    FlagText(o);
    FirstById(ContentsModes, if o.contents == 1 then 0 else if o.contents == 9 then 2 else 3);
    FirstById(FilenamesModes, if o.filenames == 4 then 0 else if o.filenames == 126 then 1 else 2);
  }
}
