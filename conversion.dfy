/** `convert_algoritmeregister`: keep the records of register standard 1.0.0, map each to a
    system card and save it under a file name derived from the record's name and
    organisation. Saving is modelled as the list of (file name, card) writes the loop makes,
    and the output directory as the map those writes leave behind. */
module Conversion {
  import opened Options
  import opened Register
  import opened SystemCards

  // ---------------------------------------------------------------------------------------
  // The version filter.

  const SupportedVersion: string := "1.0.0"

  predicate IsSupported(r: Record)
  {
    r.standard_version == Some(SupportedVersion)
  }

  /** `input_records.into_iter().filter(..).collect()`. */
  function Kept(rs: seq<Record>): (kept: seq<Record>)
    ensures |kept| <= |rs|
    ensures forall k :: 0 <= k < |kept| ==> IsSupported(kept[k])
  {
    if rs == [] then []
    else (if IsSupported(rs[0]) then [rs[0]] else []) + Kept(rs[1..])
  }

  /** A record is kept exactly when it is in the input and of the supported standard;
      absent or other versions are dropped. */
  lemma {:induction false} KeptMember(rs: seq<Record>, r: Record)
    ensures r in Kept(rs) <==> r in rs && IsSupported(r)
  {
    if rs != [] {
      KeptMember(rs[1..], r);
      assert rs == [rs[0]] + rs[1..];
    }
  }

  lemma {:induction false} KeptAppend(xs: seq<Record>, ys: seq<Record>)
    ensures Kept(xs + ys) == Kept(xs) + Kept(ys)
  {
    if xs == [] {
      assert xs + ys == ys;
    } else {
      var zs := xs + ys;
      var head := if IsSupported(xs[0]) then [xs[0]] else [];
      assert zs != [] && zs[0] == xs[0];
      assert zs[1..] == xs[1..] + ys;
      KeptAppend(xs[1..], ys);
      assert Kept(zs) == head + (Kept(xs[1..]) + Kept(ys));
      assert Kept(xs) == head + Kept(xs[1..]);
    }
  }

  /** Kept records keep their relative order. */
  lemma KeptInOrder(rs: seq<Record>, i: nat, j: nat)
    requires i < j < |rs| && IsSupported(rs[i]) && IsSupported(rs[j])
    ensures exists p: nat, q: nat :: p < q < |Kept(rs)| && Kept(rs)[p] == rs[i] && Kept(rs)[q] == rs[j]
  {
    assert rs == rs[..j] + rs[j..];
    KeptAppend(rs[..j], rs[j..]);
    KeptMember(rs[..j], rs[i]);
    assert rs[..j][i] == rs[i];
    var p :| 0 <= p < |Kept(rs[..j])| && Kept(rs[..j])[p] == rs[i];
    assert Kept(rs[j..])[0] == rs[j];
    assert Kept(rs)[p] == rs[i] && Kept(rs)[|Kept(rs[..j])|] == rs[j];
  }

  /** Filtering twice keeps the same records as filtering once. */
  lemma {:induction false} KeptIdempotent(rs: seq<Record>)
    ensures Kept(Kept(rs)) == Kept(rs)
  {
    if rs != [] {
      KeptIdempotent(rs[1..]);
      var head := if IsSupported(rs[0]) then [rs[0]] else [];
      KeptAppend(head, Kept(rs[1..]));
      if IsSupported(rs[0]) {
        assert [rs[0]][1..] == [];
      }
    }
  }

  // ---------------------------------------------------------------------------------------
  // The file name.

  predicate IsAsciiUpper(c: char) { 'A' <= c <= 'Z' }

  /** `to_lowercase`, on ASCII letters. */
  function LowerAscii(c: char): char
  {
    if IsAsciiUpper(c) then (c as int + 32) as char else c
  }

  function ToLower(s: string): (t: string)
    ensures |t| == |s|
    ensures forall i :: 0 <= i < |s| ==> t[i] == LowerAscii(s[i])
  {
    seq(|s|, i requires 0 <= i < |s| => LowerAscii(s[i]))
  }

  /** `replace` of one character by another. */
  function Replace(s: string, from: char, to: char): (t: string)
    ensures |t| == |s|
    ensures forall i :: 0 <= i < |s| ==> t[i] == if s[i] == from then to else s[i]
  {
    seq(|s|, i requires 0 <= i < |s| => if s[i] == from then to else s[i])
  }

  /** `replace` of one character by the empty string. */
  function Remove(s: string, c: char): (t: string)
    ensures |t| <= |s|
  {
    if s == [] then [] else (if s[0] == c then [] else [s[0]]) + Remove(s[1..], c)
  }

  /** The name part: lowercased, spaces to underscores, `/` and `:` removed. */
  function NamePart(name: string): (n: string)
    ensures |n| <= |name|
    ensures ' ' !in n && '/' !in n && ':' !in n
  {
    var u := Replace(ToLower(name), ' ', '_');
    var v := Remove(u, '/');
    assert forall i :: 0 <= i < |u| ==> u[i] != ' ';
    RemoveDeletes(u, '/', ' ');
    RemoveDeletes(v, ':', ' ');
    RemoveDeletes(v, ':', '/');
    RemoveDeletes(v, ':', ':');
    Remove(v, ':')
  }

  /** The organisation part: lowercased, spaces to underscores, nothing removed. */
  function OrgPart(organization: string): (o: string)
    ensures |o| == |organization|
    ensures forall i :: 0 <= i < |o| ==>
      o[i] == if organization[i] == ' ' then '_' else LowerAscii(organization[i])
  {
    Replace(ToLower(organization), ' ', '_')
  }

  /** The two `unwrap` calls that can panic, in the order they are evaluated. */
  datatype Panic = MissingName | MissingOrganization

  /** The `format!("{}_{}.yaml", ..)` of the two parts. */
  function FileNameOf(name: string, organization: string): (f: string)
    ensures var n, o := NamePart(name), OrgPart(organization);
      && |f| == |n| + 1 + |o| + 5
      && f[..|n|] == n && f[|n|] == '_' && f[|n| + 1..|f| - 5] == o && f[|f| - 5..] == ".yaml"
  {
    NamePart(name) + "_" + OrgPart(organization) + ".yaml"
  }

  function FileName(r: Record): (res: Result<string, Panic>)
    ensures res.Ok? <==> r.name.Some? && r.organization.Some?
    ensures r.name.None? ==> res == Err(MissingName)
    ensures r.name.Some? && r.organization.None? ==> res == Err(MissingOrganization)
  {
    if r.name.None? then Err(MissingName)
    else if r.organization.None? then Err(MissingOrganization)
    else Ok(FileNameOf(r.name.value, r.organization.value))
  }

  /** Removal takes out every occurrence of the character and nothing else, in order. */
  lemma {:induction false} RemoveDeletes(s: string, c: char, x: char)
    ensures c !in Remove(s, c)
    ensures x != c ==> (x in Remove(s, c) <==> x in s)
  {
    if s != [] {
      RemoveDeletes(s[1..], c, x);
      assert s == [s[0]] + s[1..];
    }
  }

  lemma {:induction false} RemoveAppend(a: string, b: string, c: char)
    ensures Remove(a + b, c) == Remove(a, c) + Remove(b, c)
  {
    if a == [] {
      assert a + b == b;
    } else {
      assert (a + b)[1..] == a[1..] + b;
      RemoveAppend(a[1..], b, c);
    }
  }

  /** Removing a character that does not occur changes nothing. */
  lemma {:induction false} RemoveAbsent(s: string, c: char)
    requires c !in s
    ensures Remove(s, c) == s
  {
    if s != [] {
      RemoveAbsent(s[1..], c);
    }
  }

  lemma RemoveOnce(u: string, a: string, b: string, c: char)
    requires u == a + [c] + b && c !in a && c !in b
    ensures Remove(u, c) == a + b
  {
    assert Remove([c], c) == [] by {
      assert [c][1..] == [];
      assert Remove([c][1..], c) == [];
    }
    assert Remove(a + [c], c) == a by {
      RemoveAppend(a, [c], c);
      RemoveAbsent(a, c);
      assert a + [] == a;
    }
    RemoveAppend(a + [c], b, c);
    RemoveAbsent(b, c);
  }

  /** The name part holds no space, `/`, `:` or ASCII capital; every other character of the
      lowercased name survives, and so does `_` where the name had a space. */
  lemma NamePartClean(name: string)
    ensures ' ' !in NamePart(name) && '/' !in NamePart(name) && ':' !in NamePart(name)
    ensures forall k :: 0 <= k < |NamePart(name)| ==> !IsAsciiUpper(NamePart(name)[k])
    ensures forall i :: 0 <= i < |name| && LowerAscii(name[i]) !in " /:" ==> LowerAscii(name[i]) in NamePart(name)
    ensures ' ' in name ==> '_' in NamePart(name)
  {
    var u := Replace(ToLower(name), ' ', '_');
    var v := Remove(u, '/');
    assert ' ' !in u by {
      assert forall i :: 0 <= i < |u| ==> u[i] != ' ';
    }
    assert forall k :: 0 <= k < |u| ==> !IsAsciiUpper(u[k]);
    forall x | x != '/' && x != ':'
      ensures x in NamePart(name) <==> x in u
    {
      RemoveDeletes(u, '/', x);
      RemoveDeletes(v, ':', x);
    }
    RemoveDeletes(u, '/', ' ');
    RemoveDeletes(v, ':', ' ');
    RemoveDeletes(v, ':', '/');
    RemoveDeletes(v, ':', ':');
    forall k | 0 <= k < |NamePart(name)|
      ensures !IsAsciiUpper(NamePart(name)[k])
    {
      var x := NamePart(name)[k];
      if x != '/' && x != ':' {
        assert x in u;
      }
    }
    forall i | 0 <= i < |name| && LowerAscii(name[i]) !in " /:"
      ensures LowerAscii(name[i]) in NamePart(name)
    {
      assert u[i] == LowerAscii(name[i]);
    }
    if ' ' in name {
      var i :| 0 <= i < |name| && name[i] == ' ';
      assert u[i] == '_';
    }
  }

  /** The organisation part has one character per character of the organisation: spaces
      become `_`, ASCII capitals become small, and everything else, `/` and `:` included, is
      kept as it is. */
  lemma OrgPartKeepsSlashAndColon(organization: string)
    ensures |OrgPart(organization)| == |organization| && ' ' !in OrgPart(organization)
    ensures forall i :: 0 <= i < |organization| && organization[i] in "/:" ==>
      OrgPart(organization)[i] == organization[i]
    ensures '/' in organization ==> '/' in OrgPart(organization)
    ensures ':' in organization ==> ':' in OrgPart(organization)
  {
    var o := OrgPart(organization);
    assert forall i :: 0 <= i < |o| ==> o[i] != ' ';
    if '/' in organization {
      var i :| 0 <= i < |organization| && organization[i] == '/';
      assert o[i] == '/';
    }
    if ':' in organization {
      var i :| 0 <= i < |organization| && organization[i] == ':';
      assert o[i] == ':';
    }
  }

  /** A record has a file name exactly when it has both a name and an organisation; the name
      is checked first. A file name is the two parts joined by `_`, with `.yaml` after. */
  lemma FileNameCases(r: Record)
    ensures FileName(r).Ok? <==> r.name.Some? && r.organization.Some?
    ensures r.name.None? ==> FileName(r) == Err(MissingName)
    ensures r.name.Some? && r.organization.None? ==> FileName(r) == Err(MissingOrganization)
    ensures FileName(r).Ok? ==>
      var f := FileName(r).value;
      var n := NamePart(r.name.value);
      && |f| == |n| + 1 + |OrgPart(r.organization.value)| + 5
      && f[..|n|] == n && f[|n|] == '_' && f[|n| + 1..|f| - 5] == OrgPart(r.organization.value)
      && f[|f| - 5..] == ".yaml"
      && ' ' !in f
  {
    if r.name.Some? && r.organization.Some? {
      var n := NamePart(r.name.value);
      var o := OrgPart(r.organization.value);
      var f := FileName(r).value;
      NamePartClean(r.name.value);
      OrgPartKeepsSlashAndColon(r.organization.value);
      assert f == n + "_" + o + ".yaml";
      assert forall k :: 0 <= k < |f| ==> f[k] != ' ' by {
        forall k | 0 <= k < |f|
          ensures f[k] != ' '
        {
          if k < |n| {
            assert f[k] == n[k];
          } else if |n| < k < |n| + 1 + |o| {
            assert f[k] == o[k - |n| - 1];
          }
        }
      }
    }
  }

  lemma NamePartExample(name: string)
    requires name == "Risk Model: A/B"
    ensures NamePart(name) == "risk_model_ab"
  {
    NameLowered(name);
    SlashRemoved(Replace(ToLower(name), ' ', '_'));
    ColonRemoved(Remove(Replace(ToLower(name), ' ', '_'), '/'));
  }

  /** The steps of the worked example, one string operation at a time. */
  lemma NameLowered(name: string)
    requires name == "Risk Model: A/B"
    ensures Replace(ToLower(name), ' ', '_') == "risk_model:_a/b"
  {
    assert ToLower(name) == "risk model: a/b";
  }

  lemma SlashRemoved(u: string)
    requires u == "risk_model:_a/b"
    ensures Remove(u, '/') == "risk_model:_ab"
  {
    RemoveOnce(u, "risk_model:_a", "b", '/');
  }

  lemma ColonRemoved(v: string)
    requires v == "risk_model:_ab"
    ensures Remove(v, ':') == "risk_model_ab"
  {
    RemoveOnce(v, "risk_model", "_ab", ':');
  }

  /** `"Risk Model: A/B"` of `"Tax Office"` is saved as `risk_model_ab_tax_office.yaml`. */
  lemma WorkedExample(name: string, organization: string)
    requires name == "Risk Model: A/B" && organization == "Tax Office"
    ensures FileNameOf(name, organization) == "risk_model_ab_tax_office.yaml"
  {
    NamePartExample(name);
    assert OrgPart(organization) == "tax_office";
  }

  /** The file name depends on the name and the organisation only, and different names can
      give the same file: `A/B` and `AB` of the same organisation collide. */
  lemma SlashNamesCollide(r1: Record, r2: Record)
    requires r1.name == Some("A/B") && r2.name == Some("AB")
    requires r1.organization == r2.organization && r1.organization.Some?
    ensures FileName(r1) == FileName(r2) && FileName(r1).Ok?
  {
    RemoveOnce(Replace(ToLower("A/B"), ' ', '_'), "a", "b", '/');
    RemoveAbsent(Replace(ToLower("AB"), ' ', '_'), '/');
    RemoveAbsent("ab", ':');
  }

  // ---------------------------------------------------------------------------------------
  // The loop.

  /** One `system_card.save(savepath)`: the path relative to the output directory. */
  datatype Save = Save(path: string, card: SystemCard)

  /** What the loop does: the saves in order, and the panic that stopped it, if any. */
  datatype Outcome = Outcome(saves: seq<Save>, panic: Option<Panic>)

  function RunOf(kept: seq<Record>): Outcome
  {
    if kept == [] then Outcome([], None)
    else match FileName(kept[0])
      case Err(e) => Outcome([], Some(e))
      case Ok(f) =>
        var rest := RunOf(kept[1..]);
        Outcome([Save(f, CardOf(kept[0]))] + rest.saves, rest.panic)
  }

  /** The loop saves at most one card per kept record, each under that record's file name and
      in the record's position; it saves one for each exactly when it does not panic, and a
      panic comes from the first record it could not save. */
  lemma {:induction false} RunShape(kept: seq<Record>)
    ensures |RunOf(kept).saves| <= |kept|
    ensures forall k :: 0 <= k < |RunOf(kept).saves| ==>
      FileName(kept[k]).Ok? && RunOf(kept).saves[k] == Save(FileName(kept[k]).value, CardOf(kept[k]))
    ensures RunOf(kept).panic.None? ==> |RunOf(kept).saves| == |kept|
    ensures RunOf(kept).panic.Some? ==>
      (|RunOf(kept).saves| < |kept| && FileName(kept[|RunOf(kept).saves|]) == Err(RunOf(kept).panic.value))
  {
    if kept != [] && FileName(kept[0]).Ok? {
      RunShape(kept[1..]);
      assert forall k :: 0 <= k < |kept[1..]| ==> kept[1..][k] == kept[k + 1];
    }
  }

  method ConvertAlgoritmeregister(records: seq<Record>) returns (saves: seq<Save>, panic: Option<Panic>)
    ensures Outcome(saves, panic) == RunOf(Kept(records))
  {
    var input := Kept(records);
    saves := [];
    panic := None;
    var i := 0;
    while i < |input|
      invariant 0 <= i <= |input|
      invariant RunOf(input) == Outcome(saves + RunOf(input[i..]).saves, RunOf(input[i..]).panic)
    {
      var record := input[i];
      RunStep(input, i);
      var systemCard := MapRecord(record);
      var filename := FileName(record);
      if filename.Err? {
        panic := Some(filename.error);
        return;
      }
      var save := Save(filename.value, systemCard);
      assert saves + [save] + RunOf(input[i + 1..]).saves == saves + ([save] + RunOf(input[i + 1..]).saves);
      saves := saves + [save];
      i := i + 1;
    }
    assert input[i..] == [];
  }

  /** One turn of the loop: the record at `i` either stops it or is saved ahead of the rest. */
  lemma RunStep(kept: seq<Record>, i: nat)
    requires i < |kept|
    ensures FileName(kept[i]).Err? ==> RunOf(kept[i..]) == Outcome([], Some(FileName(kept[i]).error))
    ensures FileName(kept[i]).Ok? ==>
      RunOf(kept[i..]) ==
      Outcome([Save(FileName(kept[i]).value, CardOf(kept[i]))] + RunOf(kept[i + 1..]).saves,
              RunOf(kept[i + 1..]).panic)
  {
    assert kept[i..][0] == kept[i] && kept[i..][1..] == kept[i + 1..];
  }

  /** When every kept record has a name and an organisation, the loop saves one card per kept
      record, in order, under that record's file name. */
  lemma {:induction false} RunSavesEveryRecord(kept: seq<Record>)
    requires forall k :: 0 <= k < |kept| ==> FileName(kept[k]).Ok?
    ensures RunOf(kept).panic.None? && |RunOf(kept).saves| == |kept|
    ensures forall k :: 0 <= k < |kept| ==>
      RunOf(kept).saves[k] == Save(FileName(kept[k]).value, CardOf(kept[k]))
  {
    if kept != [] {
      assert forall k :: 0 <= k < |kept[1..]| ==> kept[1..][k] == kept[k + 1];
      RunSavesEveryRecord(kept[1..]);
    }
  }

  /** A kept record without a name or organisation stops the loop: the cards of the records
      before it have been saved, its own and the later ones are not. */
  lemma {:induction false} RunStopsAtFirstPanic(kept: seq<Record>, i: nat)
    requires i < |kept| && FileName(kept[i]).Err?
    requires forall k :: 0 <= k < i ==> FileName(kept[k]).Ok?
    ensures RunOf(kept).panic == Some(FileName(kept[i]).error) && |RunOf(kept).saves| == i
    ensures forall k :: 0 <= k < i ==>
      RunOf(kept).saves[k] == Save(FileName(kept[k]).value, CardOf(kept[k]))
  {
    if i > 0 {
      assert forall k :: 0 <= k < |kept[1..]| ==> kept[1..][k] == kept[k + 1];
      RunStopsAtFirstPanic(kept[1..], i - 1);
    }
  }

  /** The loop ends without a panic exactly when every kept record has a file name. */
  lemma RunPanicIff(kept: seq<Record>)
    ensures RunOf(kept).panic.None? <==> forall k :: 0 <= k < |kept| ==> FileName(kept[k]).Ok?
  {
    if forall k :: 0 <= k < |kept| ==> FileName(kept[k]).Ok? {
      RunSavesEveryRecord(kept);
    } else {
      var i := FirstPanic(kept);
      RunStopsAtFirstPanic(kept, i);
    }
  }

  /** The index of the first record without a file name. */
  function FirstPanic(kept: seq<Record>): (i: nat)
    requires exists k :: 0 <= k < |kept| && FileName(kept[k]).Err?
    ensures i < |kept| && FileName(kept[i]).Err?
    ensures forall k :: 0 <= k < i ==> FileName(kept[k]).Ok?
  {
    if FileName(kept[0]).Err? then 0
    else
      assert exists k :: 0 <= k < |kept[1..]| && FileName(kept[1..][k]).Err? by {
        var k :| 0 <= k < |kept| && FileName(kept[k]).Err?;
        assert kept[1..][k - 1] == kept[k];
      }
      1 + FirstPanic(kept[1..])
  }

  // ---------------------------------------------------------------------------------------
  // The output directory.

  /** The files the saves leave behind: `File::create` truncates, so a later save to the same
      path replaces the earlier card. */
  function Directory(saves: seq<Save>): (files: map<string, SystemCard>)
    ensures forall k :: 0 <= k < |saves| ==> saves[k].path in files
    ensures forall path :: path in files ==>
      exists k :: 0 <= k < |saves| && saves[k] == Save(path, files[path])
  {
    if saves == [] then map[]
    else
      var init := saves[..|saves| - 1];
      assert forall k :: 0 <= k < |init| ==> init[k] == saves[k];
      Directory(init)[saves[|saves| - 1].path := saves[|saves| - 1].card]
  }

  /** A file exists exactly when some save wrote to its path. */
  lemma {:induction false} DirectoryFiles(saves: seq<Save>, path: string)
    ensures path in Directory(saves) <==> exists k :: 0 <= k < |saves| && saves[k].path == path
  {
    if saves != [] {
      var init := saves[..|saves| - 1];
      DirectoryFiles(init, path);
      assert forall k :: 0 <= k < |init| ==> init[k] == saves[k];
    }
  }

  /** A file holds the card of the last save to its path. */
  lemma {:induction false} LastSaveWins(saves: seq<Save>, k: nat)
    requires k < |saves|
    requires forall j :: k < j < |saves| ==> saves[j].path != saves[k].path
    ensures saves[k].path in Directory(saves) && Directory(saves)[saves[k].path] == saves[k].card
  {
    var init := saves[..|saves| - 1];
    if k < |saves| - 1 {
      assert forall j :: k < j < |init| ==> init[j] == saves[j];
      LastSaveWins(init, k);
    }
  }

  /** Two kept records with the same file name, each of them and every record before the
      later one with a file name: the later one's card is the one on disk, whether or not a
      record after it stops the loop. */
  lemma {:induction false} LaterRecordOverwrites(kept: seq<Record>, i: nat, j: nat)
    requires i < j < |kept| && FileName(kept[i]) == FileName(kept[j])
    requires forall k :: 0 <= k <= j ==> FileName(kept[k]).Ok?
    requires forall k :: j < k < |kept| ==> FileName(kept[k]) != FileName(kept[j])
    ensures var files := Directory(RunOf(kept).saves);
      FileName(kept[i]).value in files && files[FileName(kept[i]).value] == CardOf(kept[j])
  {
    SavedThrough(kept, j);
    RunShape(kept);
    var saves := RunOf(kept).saves;
    LastOfSavedPrefix(kept, saves, j);
  }

  /** When the records up to `j` all have file names, the loop gets past record `j`. */
  lemma {:induction false} SavedThrough(kept: seq<Record>, j: nat)
    requires j < |kept| && forall k :: 0 <= k <= j ==> FileName(kept[k]).Ok?
    ensures j < |RunOf(kept).saves|
  {
    RunShape(kept);
    var run := RunOf(kept);
    if run.panic.Some? {
      assert FileName(kept[|run.saves|]).Err?;
    }
  }

  /** Saves made one per record, each under its record's file name: a record's card stays on
      disk when no later record has its file name. */
  lemma {:induction false} LastOfSavedPrefix(kept: seq<Record>, saves: seq<Save>, j: nat)
    requires j < |saves| <= |kept|
    requires forall k :: 0 <= k < |saves| ==>
      FileName(kept[k]).Ok? && saves[k] == Save(FileName(kept[k]).value, CardOf(kept[k]))
    requires forall k :: j < k < |kept| ==> FileName(kept[k]) != FileName(kept[j])
    ensures saves[j].path in Directory(saves) && Directory(saves)[saves[j].path] == CardOf(kept[j])
  {
    assert forall k :: j < k < |saves| ==> saves[k].path != saves[j].path;
    LastSaveWins(saves, j);
  }
}
