/** The text forms of the flags and flags2 header fields used in packet dumps:
    "<None>" for a zero field, otherwise the names of the set bits in a fixed
    order, separated by commas. */
module FlagText {
  import opened DataPacker
  import opened SMBHeader

  /** A named single-bit mask. */
  datatype Named = Named(mask: nat, name: string)

  predicate ValidTable(table: seq<Named>)
  {
    forall i :: 0 <= i < |table| ==> table[i].mask > 0
  }

  /** The flags names in the order getFlagsAsString appends them. */
  const FlagNames: seq<Named> := [
    Named(FLG_SUBDIALECT, "SubDialect"),
    Named(FLG_CASELESS, "Caseless"),
    Named(FLG_CANONICAL, "Canonical"),
    Named(FLG_OPLOCK, "Oplock"),
    Named(FLG_NOTIFY, "Notify"),
    Named(FLG_RESPONSE, "Response")
  ]

  /** The flags2 names in the order getFlags2AsString appends them. */
  const Flag2Names: seq<Named> := [
    Named(FLG2_LONGFILENAMES, "LongFilenames"),
    Named(FLG2_EXTENDEDATTRIB, "ExtAttributes"),
    Named(FLG2_SECURITYSIG, "SecuritySignatures"),
    Named(FLG2_EXTENDEDSETUP, "ExtendedSetup"),
    Named(FLG2_READIFEXE, "ReadIfEXE"),
    Named(FLG2_LONGERRORCODE, "LongErrorCode"),
    Named(FLG2_UNICODE, "Unicode")
  ]

  /** The names, in table order, of the masks set in v. */
  function SetNames(v: nat, table: seq<Named>): (r: seq<string>)
    requires ValidTable(table)
    ensures |r| <= |table|
  {
    if table == [] then []
    else (if HasBit(v, table[0].mask) then [table[0].name] else []) + SetNames(v, table[1..])
  }

  /** The string buffer after the appends: each set name followed by a comma. */
  function Appended(v: nat, table: seq<Named>): string
    requires ValidTable(table)
  {
    if table == [] then ""
    else (if HasBit(v, table[0].mask) then table[0].name + "," else "") + Appended(v, table[1..])
  }

  /** The names separated by commas. */
  function Join(names: seq<string>): string
  {
    if names == [] then ""
    else if |names| == 1 then names[0]
    else names[0] + "," + Join(names[1..])
  }

  /** The buffer holds the joined set names and one trailing comma, and is
      empty exactly when no named bit is set. */
  lemma {:induction false} AppendedIsJoin(v: nat, table: seq<Named>)
    requires ValidTable(table)
    ensures Appended(v, table) == if SetNames(v, table) == [] then "" else Join(SetNames(v, table)) + ","
  {
    if table != [] {
      AppendedIsJoin(v, table[1..]);
      var rest := SetNames(v, table[1..]);
      if HasBit(v, table[0].mask) && rest != [] {
        var names := [table[0].name] + rest;
        assert SetNames(v, table) == names;
        assert names[1..] == rest;
        assert Join(names) == table[0].name + "," + Join(rest);
        assert Appended(v, table) == table[0].name + "," + (Join(rest) + ",");
      } else if HasBit(v, table[0].mask) {
        assert SetNames(v, table) == [table[0].name];
        assert Appended(v, table) == table[0].name + "," + "";
      } else {
        assert SetNames(v, table) == rest;
        assert Appended(v, table) == "" + Appended(v, table[1..]);
      }
    }
  }

  /** The text of a flag field as the source computes it: "<None>" for zero,
      otherwise the buffer with its last character cut off. A non-zero value
      with no named bit set leaves the buffer empty, and cutting it to length
      -1 throws. */
  function FlagsTextAsWritten(v: nat, table: seq<Named>): (r: Result<string>)
    requires ValidTable(table)
    ensures v == 0 ==> r == Ok("<None>")
    ensures r.Err? ==> r.failure == IndexOutOfBounds
    ensures v != 0 && r.Ok? ==>
      |Appended(v, table)| == |r.value| + 1 && r.value == Appended(v, table)[..|r.value|]
  {
    if v == 0 then Ok("<None>")
    else
      var str := Appended(v, table);
      if |str| - 1 < 0 then Err(IndexOutOfBounds) else Ok(str[..|str| - 1])
  }

  /** The source's text fails exactly for a non-zero value with no named bit
      set; otherwise it is the corrected text. */
  lemma AsWrittenFails(v: nat, table: seq<Named>)
    requires ValidTable(table)
    ensures FlagsTextAsWritten(v, table).Err? <==> v != 0 && SetNames(v, table) == []
    ensures FlagsTextAsWritten(v, table).Ok? ==> FlagsTextAsWritten(v, table).value == FlagsText(v, table)
  {
    AppendedIsJoin(v, table);
  }

  /** Bit 0x02 of flags has no name, and neither has bit 0x0008 of flags2:
      the source's text of either value throws. */
  lemma UnnamedBitsThrow()
    ensures ValidTable(FlagNames) && FlagsTextAsWritten(0x02, FlagNames) == Err(IndexOutOfBounds)
    ensures ValidTable(Flag2Names) && FlagsTextAsWritten(0x0008, Flag2Names) == Err(IndexOutOfBounds)
  {
    NoneSet(0x02, FlagNames);
    AppendedIsJoin(0x02, FlagNames);
    NoneSet(0x0008, Flag2Names);
    AppendedIsJoin(0x0008, Flag2Names);
  }

  /** The text of a flag field, corrected: "<None>" for zero, otherwise the
      names of the set bits joined by commas, which is empty when only
      unnamed bits are set. */
  function FlagsText(v: nat, table: seq<Named>): (r: string)
    requires ValidTable(table)
    ensures v == 0 ==> r == "<None>"
    ensures v != 0 ==> r == Join(SetNames(v, table))
  {
    if v == 0 then "<None>"
    else
      var str := Appended(v, table);
      AppendedIsJoin(v, table);
      if str == "" then "" else str[..|str| - 1]
  }

  /** getFlagsAsString, corrected. */
  function FlagsAsString(s: seq<byte>): (r: string)
    requires FLAGS < |s|
    ensures Flags(s) == 0 ==> r == "<None>"
    ensures Flags(s) != 0 ==> r == Join(SetNames(Flags(s), FlagNames))
  {
    FlagsText(Flags(s), FlagNames)
  }

  /** getFlags2AsString, corrected. */
  function Flags2AsString(s: seq<byte>): (r: string)
    requires FLAGS2 + 2 <= |s|
    ensures Flags2(s) == 0 ==> r == "<None>"
    ensures Flags2(s) != 0 ==> r == Join(SetNames(Flags2(s), Flag2Names))
  {
    FlagsText(Flags2(s), Flag2Names)
  }

  /** A name of the table is listed exactly when its bit is set (the names of
      a table are distinct). */
  lemma {:induction false} SetNamesMember(v: nat, table: seq<Named>, i: int)
    requires ValidTable(table) && 0 <= i < |table|
    requires forall j, k :: 0 <= j < k < |table| ==> table[j].name != table[k].name
    ensures table[i].name in SetNames(v, table) <==> HasBit(v, table[i].mask)
  {
    if i == 0 {
      NameAbsent(v, table[1..], table[0].name);
    } else {
      SetNamesMember(v, table[1..], i - 1);
    }
  }

  /** A name that is not in the table is never listed. */
  lemma {:induction false} NameAbsent(v: nat, table: seq<Named>, n: string)
    requires ValidTable(table)
    requires forall j :: 0 <= j < |table| ==> table[j].name != n
    ensures n !in SetNames(v, table)
  {
    if table != [] {
      NameAbsent(v, table[1..], n);
    }
  }

  /** No name is listed when no mask of the table is set. */
  lemma {:induction false} NoneSet(v: nat, table: seq<Named>)
    requires ValidTable(table)
    requires forall i :: 0 <= i < |table| ==> !HasBit(v, table[i].mask)
    ensures SetNames(v, table) == []
  {
    if table != [] {
      NoneSet(v, table[1..]);
    }
  }

  /** Every name of the flags table is listed exactly when its bit is set. */
  lemma FlagNamesFaithful(v: nat, i: int)
    requires 0 <= i < |FlagNames|
    ensures FlagNames[i].name in SetNames(v, FlagNames) <==> HasBit(v, FlagNames[i].mask)
  {
    SetNamesMember(v, FlagNames, i);
  }

  /** Every name of the flags2 table is listed exactly when its bit is set. */
  lemma Flag2NamesFaithful(v: nat, k: int)
    requires 0 <= k < |Flag2Names|
    ensures Flag2Names[k].name in SetNames(v, Flag2Names) <==> HasBit(v, Flag2Names[k].mask)
  {
    SetNamesMember(v, Flag2Names, k);
  }
}
