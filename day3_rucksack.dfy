/** Day 3: rucksacks split into two compartments, the items both compartments share, and the
    badge common to each group of three elves. */
module Rucksacks {
  import opened Options
  import opened Text

  datatype Rucksack = Rucksack(firstCompartment: seq<char>, secondCompartment: seq<char>)

  /** `get_item_priority`: the code point less 38 below `a` (97), less 96 from `a` on. */
  function GetItemPriority(item: char): (p: int)
    ensures 'a' <= item <= 'z' ==> 1 <= p <= 26 && p == (item as int) - ('a' as int) + 1
    ensures 'A' <= item <= 'Z' ==> 27 <= p <= 52 && p == (item as int) - ('A' as int) + 27
  {
    var priority := item as int;
    if priority < 97 then priority - 38 else priority - 96
  }

  predicate IsLetter(c: char) { 'a' <= c <= 'z' || 'A' <= c <= 'Z' }

  /** Different letters have different priorities. */
  lemma PriorityInjective(a: char, b: char)
    requires IsLetter(a) && IsLetter(b) && a != b
    ensures GetItemPriority(a) != GetItemPriority(b)
  {
  }

  /** The cases of the source's unit test. */
  lemma PriorityExamples()
    ensures GetItemPriority('a') == 1 && GetItemPriority('z') == 26
    ensures GetItemPriority('A') == 27 && GetItemPriority('Z') == 52
  {
  }

  /** `parse_rucksack`: the first half of the items, and the rest. */
  function ParseRucksack(input: string): (r: Rucksack)
    ensures r.firstCompartment + r.secondCompartment == input
    ensures |r.firstCompartment| == |input| / 2
    ensures |r.secondCompartment| - |r.firstCompartment| == |input| % 2
  {
    var compartmentSize := |input| / 2;
    Rucksack(input[..compartmentSize], input[compartmentSize..])
  }

  /** `separate_rucksacks`: one rucksack per `\n`-separated line, in order. */
  method SeparateRucksacks(input: string) returns (rucksacks: seq<Rucksack>)
    ensures |rucksacks| == |Split(input, '\n')|
    ensures forall k :: 0 <= k < |rucksacks| ==> rucksacks[k] == ParseRucksack(Split(input, '\n')[k])
  {
    rucksacks := [];
    var split := Split(input, '\n');
    for i := 0 to |split|
      invariant |rucksacks| == i
      invariant forall k :: 0 <= k < i ==> rucksacks[k] == ParseRucksack(split[k])
    {
      var rucksack := ParseRucksack(split[i]);
      rucksacks := rucksacks + [rucksack];
    }
  }

  /** `find_common_items`: the items of the first compartment that also occur in the second,
      each once, in the order they first occur in the first. */
  method FindCommonItems(rucksack: Rucksack) returns (commonItems: seq<char>)
    ensures forall c :: c in commonItems <==> c in rucksack.firstCompartment && c in rucksack.secondCompartment
    ensures forall i, j :: 0 <= i < j < |commonItems| ==> commonItems[i] != commonItems[j]
    ensures forall i, j :: 0 <= i < j < |commonItems| ==>
      IndexOf(rucksack.firstCompartment, commonItems[i]) < IndexOf(rucksack.firstCompartment, commonItems[j])
  {
    var first, second := rucksack.firstCompartment, rucksack.secondCompartment;
    commonItems := [];
    for k := 0 to |first|
      invariant CommonSoFar(first, second, k, commonItems)
    {
      var item := first[k];
      ghost var before := commonItems;
      if item in second && item !in commonItems {
        commonItems := commonItems + [item];
      }
      CommonStep(first, second, k, before, commonItems);
    }
    assert first[..|first|] == first;
    forall c
      ensures c in commonItems <==> c in first && c in second
    {
      assert ListedIfCommon(first[..|first|], second, commonItems, c);
    }
    forall i, j | 0 <= i < j < |commonItems|
      ensures IndexOf(first, commonItems[i]) < IndexOf(first, commonItems[j])
    {
      assert FirstBefore(first, commonItems, i, j);
    }
  }

  /** The loop state after the first `k` items: the common items among them, each once,
      ordered by first occurrence. */
  ghost predicate CommonSoFar(first: seq<char>, second: seq<char>, k: nat, common: seq<char>)
  {
    k <= |first| && CommonAmong(first[..k], second, common) && FoundBefore(first, k, common)
      && InFirstOrder(first, common)
  }

  ghost predicate CommonAmong(prefix: seq<char>, second: seq<char>, common: seq<char>)
  {
    forall c :: ListedIfCommon(prefix, second, common, c)
  }

  /** `c` is listed in `common` exactly when it occurs in both `prefix` and `second`. */
  ghost predicate ListedIfCommon(prefix: seq<char>, second: seq<char>, common: seq<char>, c: char)
  {
    c in common <==> c in prefix && c in second
  }

  ghost predicate FoundBefore(first: seq<char>, k: nat, common: seq<char>)
  {
    forall i :: 0 <= i < |common| ==> IndexOf(first, common[i]) < k
  }

  ghost predicate InFirstOrder(first: seq<char>, common: seq<char>)
  {
    forall i, j :: 0 <= i < j < |common| ==> FirstBefore(first, common, i, j)
  }

  /** Item `i` of `common` first occurs in `first` before item `j` does. */
  ghost predicate FirstBefore(first: seq<char>, common: seq<char>, i: nat, j: nat)
    requires i < |common| && j < |common|
  {
    IndexOf(first, common[i]) < IndexOf(first, common[j])
  }

  /** Looking at item `k` appends it exactly when it is common and not yet listed. */
  lemma CommonStep(first: seq<char>, second: seq<char>, k: nat, common: seq<char>, common': seq<char>)
    requires k < |first| && CommonSoFar(first, second, k, common)
    requires common' == if first[k] in second && first[k] !in common then common + [first[k]] else common
    ensures CommonSoFar(first, second, k + 1, common')
  {
    var item := first[k];
    assert first[..k + 1] == first[..k] + [item];
    CommonAmongStep(first[..k], second, common, item, common');
    if item in second && item !in common {
      assert ListedIfCommon(first[..k], second, common, item);
      IndexOfFirst(first, k);
      AppendLast(first, k, common, item);
    } else {
      FoundBeforeLater(first, k, common);
    }
  }

  lemma CommonAmongStep(prefix: seq<char>, second: seq<char>, common: seq<char>, item: char, common': seq<char>)
    requires CommonAmong(prefix, second, common)
    requires common' == if item in second && item !in common then common + [item] else common
    ensures CommonAmong(prefix + [item], second, common')
  {
    forall c
      ensures ListedIfCommon(prefix + [item], second, common', c)
    {
      assert ListedIfCommon(prefix, second, common, c);
      assert c in prefix + [item] <==> c in prefix || c == item;
    }
  }

  lemma FoundBeforeLater(first: seq<char>, k: nat, common: seq<char>)
    requires FoundBefore(first, k, common)
    ensures FoundBefore(first, k + 1, common)
  {
  }

  /** An item whose first occurrence is `k` goes after the items found before `k`. */
  lemma AppendLast(first: seq<char>, k: nat, common: seq<char>, item: char)
    requires FoundBefore(first, k, common) && InFirstOrder(first, common)
    requires IndexOf(first, item) == k
    ensures FoundBefore(first, k + 1, common + [item]) && InFirstOrder(first, common + [item])
  {
    var common' := common + [item];
    forall i | 0 <= i < |common'|
      ensures IndexOf(first, common'[i]) < k + 1
    {
      if i < |common| {
        assert common'[i] == common[i];
      }
    }
    forall i, j | 0 <= i < j < |common'|
      ensures FirstBefore(first, common', i, j)
    {
      assert common'[i] == common[i];
      if j < |common| {
        assert FirstBefore(first, common, i, j);
        assert common'[j] == common[j];
      }
    }
  }

  lemma IndexOfFirst(s: seq<char>, k: nat)
    requires k < |s| && s[k] !in s[..k]
    ensures IndexOf(s, s[k]) == k
  {
    assert forall j :: 0 <= j < k ==> s[j] == s[..k][j];
  }

  /** `separate_groups`: consecutive triples of lines; lines that do not complete a triple are
      dropped. */
  method SeparateGroups(input: string) returns (groups: seq<seq<string>>)
    ensures |groups| == |Split(input, '\n')| / 3
    ensures forall g :: 0 <= g < |groups| ==> groups[g] == Split(input, '\n')[3 * g..3 * g + 3]
  {
    groups := [];
    var split := Split(input, '\n');
    var group: seq<string> := [];
    for i := 0 to |split|
      invariant |groups| == i / 3
      invariant group == split[3 * (i / 3)..i]
      invariant forall g :: 0 <= g < |groups| ==> groups[g] == split[3 * g..3 * g + 3]
    {
      group := group + [split[i]];
      if i % 3 == 2 {
        groups := groups + [group];
        group := [];
      }
    }
  }

  /** A character every line of the group holds. */
  predicate CommonToAll(group: seq<string>, c: char)
  {
    forall k :: 0 <= k < |group| ==> c in group[k]
  }

  /** `find_group_badge`: `None` for a group of at most one line; otherwise a character common to
      every line, `None` if there is none. Which of several common characters comes out depends
      on hash-set order, so the model leaves the choice open. */
  method FindGroupBadge(group: seq<string>) returns (badge: Option<char>)
    ensures |group| <= 1 ==> badge.None?
    ensures badge.Some? ==> CommonToAll(group, badge.value)
    ensures |group| >= 2 && badge.None? ==> forall c :: !CommonToAll(group, c)
  {
    if |group| <= 1 {
      return None;
    }
    var initialSet := set c | c in group[0];
    var commonSet := initialSet * (set c | c in group[1]);
    for i := 2 to |group|
      invariant forall c :: c in commonSet <==> CommonToAll(group[..i], c)
    {
      commonSet := commonSet * (set c | c in group[i]);
      assert group[..i + 1] == group[..i] + [group[i]];
    }
    assert group[..|group|] == group;
    if commonSet == {} {
      return None;
    }
    var c :| c in commonSet;
    return Some(c);
  }

  /** The cases of the source's unit test follow from the contract alone. */
  method FindGroupBadgeExamples()
  {
    var g1 := ["asdf", "aghj", "aklm"];
    OnlyCommonIsA(g1);
    var b := FindGroupBadge(g1);
    assert b == Some('a');
    b := FindGroupBadge(["asdf"]);
    assert b == None;
    var g2 := ["asdf", "ghjk", "lmno"];
    forall c ensures !CommonToAll(g2, c) {
      assert g2[0] == "asdf" && g2[1] == "ghjk";
    }
    b := FindGroupBadge(g2);
    assert b == None;
    var g3 := ["asdf", "aghj"];
    OnlyCommonIsA(g3);
    b := FindGroupBadge(g3);
    assert b == Some('a');
  }

  lemma OnlyCommonIsA(group: seq<string>)
    requires |group| >= 2 && group[0] == "asdf" && group[1] == "aghj"
    requires forall k :: 0 <= k < |group| ==> 'a' in group[k]
    ensures CommonToAll(group, 'a')
    ensures forall c :: CommonToAll(group, c) ==> c == 'a'
  {
    forall c | CommonToAll(group, c) ensures c == 'a' {
      assert c in group[0] && c in group[1];
      assert c in ['a', 's', 'd', 'f'];
      assert c in ['a', 'g', 'h', 'j'];
    }
  }
}
