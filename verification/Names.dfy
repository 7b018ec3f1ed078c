/** The names the service makes: bounded resource names, storage account names, subnet names. */
module Names {
  import Text

  predicate IsAlphanumeric(c: char) {
    'a' <= c <= 'z' || 'A' <= c <= 'Z' || '0' <= c <= '9'
  }

  predicate IsAllowed(c: char) { IsAlphanumeric(c) || c == '-' }

  function Filter(s: string): (r: string)
    ensures |r| <= |s| && forall c :: c in r <==> c in s && IsAllowed(c)
  {
    if s == "" then ""
    else
      assert s == [s[0]] + s[1..];
      if IsAllowed(s[0]) then [s[0]] + Filter(s[1..]) else Filter(s[1..])
  }

  function DropDashes(s: string): string {
    if s != "" && s[0] == '-' then DropDashes(s[1..]) else s
  }

  /** Remove the dashes at the very beginning, and every character that is not a letter, a digit or
      a dash. */
  function Sanitize(name: string): string { Filter(DropDashes(name)) }

  function Truncate(name: string, limit: int): string {
    var kept := if |name| <= limit then name else if limit < 0 then "" else name[..limit];
    if kept != "" && kept[|kept| - 1] == '-' then kept[..|kept| - 1] else kept
  }

  /** `uniqueId` is the unique text of 8 characters that stands in for a missing postfix. */
  function Postfix(postfix: string, uniqueId: string): string { if postfix == "" then uniqueId else postfix }

  function Stem(name: string, postfix: string, maxLength: int): string {
    var postfixLength := if postfix == "" then 9 else |postfix| + 1;
    Truncate(Sanitize(name), maxLength - postfixLength)
  }

  function GenerateName(name: string, postfix: string, uniqueId: string, maxLength: int): string {
    Stem(name, postfix, maxLength) + "-" + Postfix(postfix, uniqueId)
  }

  /** How much of a sanitized name is kept where there is room for so many characters. */
  function Kept(clean: string, room: int): nat {
    var cut := if |clean| <= room then |clean| else if room < 0 then 0 else room;
    if cut > 0 && clean[cut - 1] == '-' then cut - 1 else cut
  }

  /** A generated name fits the maximum exactly when its postfix and the dash do; its stem holds
      only letters, digits and dashes and is as much of the sanitized name as fits beside them, less
      a dash at the cut. */
  lemma GeneratedNameLaws(name: string, postfix: string, uniqueId: string, maxLength: int)
    requires |uniqueId| == 8
    ensures |GenerateName(name, postfix, uniqueId, maxLength)| <= maxLength
       <==> |Postfix(postfix, uniqueId)| + 1 <= maxLength
    ensures forall c :: c in Stem(name, postfix, maxLength) ==> IsAllowed(c)
    ensures var room := maxLength - |Postfix(postfix, uniqueId)| - 1;
            Stem(name, postfix, maxLength) == Sanitize(name)[..Kept(Sanitize(name), room)]
  {
    var stem := Stem(name, postfix, maxLength);
    assert stem == Sanitize(name)[..|stem|];
    forall c | c in stem ensures c in Sanitize(name) {
    }
  }

  /** Names with different postfixes of one length differ, whatever they are made from. */
  lemma PostfixKeepsApart(a: string, b: string, postfixA: string, postfixB: string, uniqueId: string, maxLength: int)
    requires postfixA != "" && |postfixA| == |postfixB| && postfixA != postfixB
    ensures GenerateName(a, postfixA, uniqueId, maxLength) != GenerateName(b, postfixB, uniqueId, maxLength)
  {
    var x, y := GenerateName(a, postfixA, uniqueId, maxLength), GenerateName(b, postfixB, uniqueId, maxLength);
    assert x[|x| - |postfixA|..] == postfixA && y[|y| - |postfixB|..] == postfixB;
  }

  /** A VM's name has no spaces, so that rule names made from it contain it. */
  lemma GeneratedNameHasNoSpaces(name: string, postfix: string, uniqueId: string, maxLength: int)
    requires |uniqueId| == 8 && ' ' !in Postfix(postfix, uniqueId)
    ensures ' ' !in GenerateName(name, postfix, uniqueId, maxLength)
  {
    GeneratedNameLaws(name, postfix, uniqueId, maxLength);
  }

  // ---------- storage accounts ----------

  function StorageAccountName(reservationId: string): string {
    Text.Without(GenerateName(Text.Without(reservationId, '-'), "cs", "", 24), '-')
  }

  function Alphanumerics(s: string): nat {
    if s == "" then 0 else (if IsAlphanumeric(s[0]) then 1 else 0) + Alphanumerics(s[1..])
  }

  lemma {:induction false} WithoutAppend(a: string, b: string, c: char)
    ensures Text.Without(a + b, c) == Text.Without(a, c) + Text.Without(b, c)
  {
    if a == "" {
      assert a + b == b;
    } else {
      assert (a + b)[0] == a[0] && (a + b)[1..] == a[1..] + b;
      WithoutAppend(a[1..], b, c);
    }
  }

  lemma {:induction false} FilterCountsAlphanumerics(s: string)
    ensures |Filter(Text.Without(s, '-'))| == Alphanumerics(s)
    ensures '-' !in Filter(Text.Without(s, '-'))
  {
    if s != "" {
      FilterCountsAlphanumerics(s[1..]);
      var rest := Text.Without(s[1..], '-');
      assert ([s[0]] + rest)[1..] == rest;
    }
  }

  /** The storage account name has no dashes and only letters and digits; its length is two more
      than the number of letters and digits of the reservation id, up to 21 of them. So it is 3 to
      24 long exactly if the id has a letter or digit. */
  lemma StorageAccountNameLaws(reservationId: string)
    ensures var r := StorageAccountName(reservationId); var n := Alphanumerics(reservationId);
            && (forall c :: c in r ==> IsAlphanumeric(c))
            && |r| == 2 + (if n <= 21 then n else 21)
            && (3 <= |r| <= 24 <==> n > 0)
  {
    var id := Text.Without(reservationId, '-');
    var clean := Sanitize(id);
    DropNothing(id);
    FilterCountsAlphanumerics(reservationId);
    var stem := Stem(id, "cs", 24);
    forall c | c in stem ensures c in clean {
    }
    assert GenerateName(id, "cs", "", 24) == stem + "-cs";
    WithoutAppend(stem, "-cs", '-');
    assert Text.Without("-cs", '-') == "cs" by {
      assert "-cs"[1..] == "cs" && "cs"[1..] == "s" && "s"[1..] == "";
      assert Text.Without("cs", '-') == "cs";
    }
    assert StorageAccountName(reservationId) == stem + "cs";
  }

  lemma DropNothing(s: string)
    requires '-' !in s
    ensures DropDashes(s) == s
  {
  }

  // ---------- subnets ----------

  function FormatSubnetName(group: string, cidr: string): string {
    Text.Replace(Text.Without(group + "_" + cidr, ' '), '/', '-')
  }

  /** A CIDR as it stands in a subnet name. */
  function CidrText(cidr: string): string { Text.Replace(Text.Without(cidr, ' '), '/', '-') }

  predicate IsGroupName(group: string) { ' ' !in group && '/' !in group }

  lemma ReplaceAppend(a: string, b: string, from: char, to: char)
    ensures Text.Replace(a + b, from, to) == Text.Replace(a, from, to) + Text.Replace(b, from, to)
  {
  }

  /** A sandbox's subnet names start with its group name. */
  lemma SubnetNameStartsWithGroup(group: string, cidr: string)
    requires IsGroupName(group)
    ensures FormatSubnetName(group, cidr)
         == group + "_" + CidrText(cidr)
  {
    WithoutAppend(group + "_", cidr, ' ');
    var tail := Text.Without(cidr, ' ');
    assert Text.Without(group + "_" + cidr, ' ') == group + "_" + tail;
    ReplaceAppend(group + "_", tail, '/', '-');
    assert Text.Replace(group + "_", '/', '-') == group + "_";
  }

  /** And with another group's name exactly when that is a prefix of its own: names that are no
      prefixes of one another keep the subnets of different sandboxes apart. */
  lemma SubnetNameOfOtherGroup(group: string, other: string, cidr: string)
    requires IsGroupName(group) && IsGroupName(other) && !(other < group)
    ensures Text.StartsWith(FormatSubnetName(other, cidr), group) <==> group <= other
  {
    SubnetNameStartsWithGroup(other, cidr);
    var name := FormatSubnetName(other, cidr);
    assert other <= name;
    if |group| <= |other| {
      assert name[..|group|] == other[..|group|];
    }
  }

  /** A subnet name contains the name of another group exactly when its own group's name or its CIDR
      does: this is how deployment looks for a sandbox's default subnet. */
  lemma SubnetNameContains(group: string, other: string, cidr: string)
    requires IsGroupName(other) && '_' !in group
    ensures Text.Contains(FormatSubnetName(other, cidr), group)
       <==> Text.Contains(other, group) || Text.Contains(CidrText(cidr), group)
  {
    SubnetNameStartsWithGroup(other, cidr);
    Text.ContainsAround(other, '_', CidrText(cidr), group);
  }
}
