/** Merging the checkpoints of several machines into one: the memory images are laid out one
    after the other, physical addresses move with them, and CPU sections are renamed. */
module Aggregator {
  import opened PyText
  import opened SectionNames

  const PAGE: nat := 4096

  datatype Item = PhysAddr(addr: int) | Other(key: string, text: string)

  datatype Section = Section(name: string, items: seq<Item>)

  /** The sections of the configuration, the number of pages in use, the memory image and the
      tick at which the checkpoint was taken. */
  datatype Checkpoint = Checkpoint(sections: seq<Section>, pages: nat, image: seq<int>, curTick: Option<int>)

  // ----- Memory

  /** The pages of the checkpoints before `i`. */
  function PagesBefore(cpts: seq<Checkpoint>, i: nat): nat
    requires i <= |cpts|
  {
    if i == 0 then 0 else PagesBefore(cpts, i - 1) + cpts[i - 1].pages
  }

  /** What reading `pages` pages from an image returns: less when the image is short. */
  function Copied(image: seq<int>, pages: nat): (r: seq<int>)
    ensures |r| == if |image| < PAGE * pages then |image| else PAGE * pages
    ensures r <= image
  {
    if |image| < PAGE * pages then image else image[..PAGE * pages]
  }

  /** The images of the first `n` checkpoints, one after the other. */
  function Layout(cpts: seq<Checkpoint>, n: nat): seq<int>
    requires n <= |cpts|
  {
    if n == 0 then [] else Layout(cpts, n - 1) + Copied(cpts[n - 1].image, cpts[n - 1].pages)
  }

  method CopyPages(image: seq<int>, pages: nat) returns (out: seq<int>)
    ensures out == Copied(image, pages)
  {
    out := [];
    var x, at := 0, 0;
    while x < pages
      invariant 0 <= x <= pages && 0 <= at <= |image|
      invariant at == if |image| < PAGE * x then |image| else PAGE * x
      invariant out == image[..at]
    {
      var end := if at + PAGE <= |image| then at + PAGE else |image|;
      out := out + image[at..end];
      at := end;
      x := x + 1;
    }
  }

  /** The image is at least as long as its page count says. */
  predicate Full(c: Checkpoint) {
    |c.image| >= PAGE * c.pages
  }

  lemma {:induction false} LayoutLength(cpts: seq<Checkpoint>, n: nat)
    requires n <= |cpts|
    ensures |Layout(cpts, n)| <= PAGE * PagesBefore(cpts, n)
    ensures |Layout(cpts, n)| == PAGE * PagesBefore(cpts, n) <==> forall k :: 0 <= k < n ==> Full(cpts[k])
  {
    if n > 0 {
      LayoutLength(cpts, n - 1);
      if |Layout(cpts, n)| == PAGE * PagesBefore(cpts, n) {
        assert Full(cpts[n - 1]);
      }
    }
  }

  lemma {:induction false} LayoutPrefix(cpts: seq<Checkpoint>, i: nat, n: nat)
    requires i <= n <= |cpts|
    ensures Layout(cpts, i) <= Layout(cpts, n)
  {
    if i < n {
      LayoutPrefix(cpts, i, n - 1);
    }
  }

  lemma {:induction false} PagesGrow(cpts: seq<Checkpoint>, i: nat, n: nat)
    requires i <= n <= |cpts|
    ensures PagesBefore(cpts, i) <= PagesBefore(cpts, n)
  {
    if i < n {
      PagesGrow(cpts, i, n - 1);
    }
  }

  /** Where the byte at physical address `p` of checkpoint `i` goes. */
  function Relocate(cpts: seq<Checkpoint>, i: nat, p: int): int
    requires i < |cpts|
  {
    p + PAGE * PagesBefore(cpts, i)
  }

  /** Two different bytes never go to the same place. */
  lemma RelocateInjective(cpts: seq<Checkpoint>, i: nat, p: nat, j: nat, q: nat)
    requires i < |cpts| && j < |cpts| && p < PAGE * cpts[i].pages && q < PAGE * cpts[j].pages
    requires Relocate(cpts, i, p) == Relocate(cpts, j, q)
    ensures i == j && p == q
  {
    if i < j {
      PagesGrow(cpts, i + 1, j);
    } else if j < i {
      PagesGrow(cpts, j + 1, i);
    }
  }

  /** Where a copied byte really ends up, and that this is the address it is given exactly when
      no earlier image is short: a short one moves everything behind it forward. */
  lemma ShortImagesShift(cpts: seq<Checkpoint>, i: nat, p: nat)
    requires i < |cpts| && p < 4096 * cpts[i].pages && p < |cpts[i].image|
    ensures |Layout(cpts, i)| + p < |Layout(cpts, |cpts|)|
    ensures Layout(cpts, |cpts|)[|Layout(cpts, i)| + p] == cpts[i].image[p]
    ensures |Layout(cpts, i)| + p == p + 4096 * PagesBefore(cpts, i)
       <==> forall k :: 0 <= k < i ==> |cpts[k].image| >= 4096 * cpts[k].pages
  {
    LayoutLength(cpts, i);
    LayoutPrefix(cpts, i + 1, |cpts|);
    var here := Layout(cpts, i + 1);
    assert here[|Layout(cpts, i)| + p] == Copied(cpts[i].image, cpts[i].pages)[p];
  }

  /** Every byte in use keeps its value at its new address, provided its own image and those
      before it are full. */
  lemma BytesSurvive(cpts: seq<Checkpoint>, i: nat, p: nat)
    requires i < |cpts| && p < 4096 * cpts[i].pages
    requires forall k :: 0 <= k <= i ==> |cpts[k].image| >= 4096 * cpts[k].pages
    ensures 0 <= p + 4096 * PagesBefore(cpts, i) < |Layout(cpts, |cpts|)|
    ensures Layout(cpts, |cpts|)[p + 4096 * PagesBefore(cpts, i)] == cpts[i].image[p]
  {
    ShortImagesShift(cpts, i, p);
  }

  // ----- Padding

  /** The number of pages after padding to `memorySize`. */
  function PaddedPages(pages: nat, memorySize: int): (n: nat)
    ensures n >= pages && PAGE * n >= memorySize
    ensures n > pages ==> PAGE * (n - 1) < memorySize
    decreases memorySize - PAGE * pages
  {
    if PAGE * pages < memorySize then PaddedPages(pages + 1, memorySize) else pages
  }

  // ----- Sections

  function MoveItems(items: seq<Item>, offset: int): (r: seq<Item>)
    ensures |r| == |items|
  {
    if items == [] then []
    else
      var last := items[|items| - 1];
      MoveItems(items[..|items| - 1], offset) + [if last.PhysAddr? then PhysAddr(last.addr + offset) else last]
  }

  /** Sets an option, in place when the section has it already. */
  function SetOption(items: seq<Item>, key: string, text: string): seq<Item> {
    if items == [] then [Other(key, text)]
    else if items[0].Other? && items[0].key == key then [Other(key, text)] + items[1..]
    else [items[0]] + SetOption(items[1..], key, text)
  }

  /** `workload.FdMap256$`, where the dot stands for any character. */
  predicate IsFdMap(name: string) {
    && |name| >= 17 && name[|name| - 17..|name| - 9] == "workload" && name[|name| - 8..] == "FdMap256"
  }

  predicate Dropped(name: string) {
    name == "system" || name == "Globals"
  }

  function CpuSection(cpts: seq<Checkpoint>, i: nat, s: Section): Section
    requires i < |cpts|
  {
    var items := MoveItems(s.items, PAGE * PagesBefore(cpts, i));
    Section(Rename(i, |cpts|, s.name), if IsFdMap(s.name) then SetOption(items, "M5_pid", Decimal(i)) else items)
  }

  /** What checkpoint `i` contributes for one of its sections: CPU sections always, the others
      only from the last checkpoint. */
  function Contribution(cpts: seq<Checkpoint>, i: nat, s: Section): seq<Section>
    requires i < |cpts|
  {
    if HasCpu(s.name) then [CpuSection(cpts, i, s)]
    else if Dropped(s.name) then []
    else if i == |cpts| - 1 then [s]
    else []
  }

  function Contributions(cpts: seq<Checkpoint>, i: nat, n: nat): seq<Section>
    requires i < |cpts| && n <= |cpts[i].sections|
  {
    if n == 0 then [] else Contributions(cpts, i, n - 1) + Contribution(cpts, i, cpts[i].sections[n - 1])
  }

  /** The sections written for the first `n` checkpoints. */
  function Merged(cpts: seq<Checkpoint>, n: nat): seq<Section>
    requires n <= |cpts|
  {
    if n == 0 then [] else Merged(cpts, n - 1) + Contributions(cpts, n - 1, |cpts[n - 1].sections|)
  }

  ghost predicate DistinctNames(sections: seq<Section>) {
    forall j, k :: 0 <= j < k < |sections| ==> sections[j].name != sections[k].name
  }

  /** The section `out` comes from section `s` of checkpoint `i`. */
  ghost predicate ComesFrom(cpts: seq<Checkpoint>, out: Section, i: nat, s: Section)
    requires i < |cpts|
  {
    s in cpts[i].sections && out in Contribution(cpts, i, s)
  }

  /** The name of a written section determines where it comes from. */
  lemma NameDetermines(cpts: seq<Checkpoint>, a: Section, i: nat, s: Section, b: Section, j: nat, t: Section)
    requires i < |cpts| && j < |cpts| && ComesFrom(cpts, a, i, s) && ComesFrom(cpts, b, j, t) && a.name == b.name
    ensures i == j && s.name == t.name && !Dropped(a.name)
  {
    hide Rename, HasCpu;
    CpuStays(i, |cpts|, s.name);
    CpuStays(j, |cpts|, t.name);
    if HasCpu(s.name) && HasCpu(t.name) {
      RenameInjective(i, j, |cpts|, s.name, t.name);
    }
    NoCpuIn();
  }

  lemma CpuStays(i: nat, count: nat, name: string)
    requires i < count
    ensures HasCpu(name) ==> HasCpu(Rename(i, count, name))
  {
    if HasCpu(name) {
      SubHasCpu(name, Tag(i, count));
    }
  }

  lemma NoCpuIn()
    ensures !HasCpu("system") && !HasCpu("Globals")
  {
    assert "system"[1..] == "ystem" && "ystem"[1..] == "stem" && "stem"[1..] == "tem";
    assert "Globals"[1..] == "lobals" && "lobals"[1..] == "obals" && "obals"[1..] == "bals" && "bals"[1..] == "als";
  }

  lemma {:induction false} ContributionsOrigin(cpts: seq<Checkpoint>, i: nat, n: nat, k: nat)
    requires i < |cpts| && n <= |cpts[i].sections| && k < |Contributions(cpts, i, n)|
    ensures exists m :: 0 <= m < n && Contributions(cpts, i, n)[k] in Contribution(cpts, i, cpts[i].sections[m])
  {
    hide Contribution;
    var front := Contributions(cpts, i, n - 1);
    if k < |front| {
      ContributionsOrigin(cpts, i, n - 1, k);
      var m :| 0 <= m < n - 1 && front[k] in Contribution(cpts, i, cpts[i].sections[m]);
      assert Contributions(cpts, i, n)[k] == front[k];
    } else {
      assert Contributions(cpts, i, n)[k] == Contribution(cpts, i, cpts[i].sections[n - 1])[k - |front|];
    }
  }

  lemma OneContribution(cpts: seq<Checkpoint>, i: nat, s: Section)
    requires i < |cpts|
    ensures |Contribution(cpts, i, s)| <= 1
  {
  }

  lemma {:induction false} ContributionsDistinct(cpts: seq<Checkpoint>, i: nat, n: nat)
    requires i < |cpts| && n <= |cpts[i].sections| && DistinctNames(cpts[i].sections)
    ensures DistinctNames(Contributions(cpts, i, n))
  {
    hide Contribution;
    if n > 0 {
      ContributionsDistinct(cpts, i, n - 1);
      var front, s := Contributions(cpts, i, n - 1), cpts[i].sections[n - 1];
      var last := Contribution(cpts, i, s);
      OneContribution(cpts, i, s);
      forall j | 0 <= j < |front| ensures forall a :: a in last ==> front[j].name != a.name {
        forall a | a in last ensures front[j].name != a.name {
          ContributionsOrigin(cpts, i, n - 1, j);
          var m :| 0 <= m < n - 1 && front[j] in Contribution(cpts, i, cpts[i].sections[m]);
          assert cpts[i].sections[m].name != s.name;
          if front[j].name == a.name {
            NameDetermines(cpts, front[j], i, cpts[i].sections[m], a, i, s);
          }
        }
      }
      AppendDistinct(front, last);
    }
  }

  lemma AppendDistinct(front: seq<Section>, last: seq<Section>)
    requires DistinctNames(front) && DistinctNames(last)
    requires forall j :: 0 <= j < |front| ==> forall a :: a in last ==> front[j].name != a.name
    ensures DistinctNames(front + last)
  {
    var all := front + last;
    forall j, k | 0 <= j < k < |all| ensures all[j].name != all[k].name {
      if j < |front| <= k {
        assert all[k] in last;
      }
    }
  }

  lemma {:induction false} MergedOrigin(cpts: seq<Checkpoint>, n: nat, k: nat) returns (i: nat, s: Section)
    requires n <= |cpts| && k < |Merged(cpts, n)|
    ensures i < n && ComesFrom(cpts, Merged(cpts, n)[k], i, s)
  {
    var front := Merged(cpts, n - 1);
    if k < |front| {
      i, s := MergedOrigin(cpts, n - 1, k);
    } else {
      i := n - 1;
      ContributionsOrigin(cpts, i, |cpts[i].sections|, k - |front|);
      var m :| 0 <= m < |cpts[i].sections|
            && Contributions(cpts, i, |cpts[i].sections|)[k - |front|] in Contribution(cpts, i, cpts[i].sections[m]);
      s := cpts[i].sections[m];
    }
  }

  /** No two sections of the merged configuration have the same name, and none takes the
      name of the two sections that are added at the end. */
  lemma {:induction false} MergedDistinct(cpts: seq<Checkpoint>, n: nat)
    requires n <= |cpts| && forall i :: 0 <= i < |cpts| ==> DistinctNames(cpts[i].sections)
    ensures DistinctNames(Merged(cpts, n))
    ensures forall k :: 0 <= k < |Merged(cpts, n)| ==> !Dropped(Merged(cpts, n)[k].name)
  {
    hide Dropped, ComesFrom, Contributions;
    if n > 0 {
      MergedDistinct(cpts, n - 1);
      var i := n - 1;
      var front, last := Merged(cpts, n - 1), Contributions(cpts, i, |cpts[i].sections|);
      ContributionsDistinct(cpts, i, |cpts[i].sections|);
      forall j | 0 <= j < |front| ensures forall a :: a in last ==> front[j].name != a.name {
        forall a | a in last ensures front[j].name != a.name {
          FromEarlier(cpts, n, j, a);
        }
      }
      AppendDistinct(front, last);
    }
    forall k | 0 <= k < |Merged(cpts, n)| ensures !Dropped(Merged(cpts, n)[k].name) {
      var i, s := MergedOrigin(cpts, n, k);
      NameDetermines(cpts, Merged(cpts, n)[k], i, s, Merged(cpts, n)[k], i, s);
    }
  }

  lemma FromEarlier(cpts: seq<Checkpoint>, n: nat, j: nat, a: Section)
    requires 0 < n <= |cpts| && j < |Merged(cpts, n - 1)|
    requires a in Contributions(cpts, n - 1, |cpts[n - 1].sections|)
    ensures Merged(cpts, n - 1)[j].name != a.name
  {
    hide Contribution, Contributions, Merged;
    var sections := cpts[n - 1].sections;
    var i, s := MergedOrigin(cpts, n - 1, j);
    var k :| 0 <= k < |Contributions(cpts, n - 1, |sections|)| && Contributions(cpts, n - 1, |sections|)[k] == a;
    ContributionsOrigin(cpts, n - 1, |sections|, k);
    var m :| 0 <= m < |sections| && a in Contribution(cpts, n - 1, sections[m]);
    if Merged(cpts, n - 1)[j].name == a.name {
      NameDetermines(cpts, Merged(cpts, n - 1)[j], i, s, a, n - 1, sections[m]);
    }
  }

  // ----- What an address means

  lemma {:induction false} MovedItem(items: seq<Item>, offset: int, q: nat)
    requires q < |items|
    ensures MoveItems(items, offset)[q]
         == if items[q].PhysAddr? then PhysAddr(items[q].addr + offset) else items[q]
  {
    if q < |items| - 1 {
      MovedItem(items[..|items| - 1], offset, q);
    }
  }

  lemma {:induction false} SetOptionKeeps(items: seq<Item>, key: string, text: string, q: nat)
    requires q < |items| && items[q].PhysAddr?
    ensures q < |SetOption(items, key, text)| && SetOption(items, key, text)[q] == items[q]
  {
    if q > 0 && !(items[0].Other? && items[0].key == key) {
      SetOptionKeeps(items[1..], key, text, q - 1);
    }
  }

  lemma {:induction false} CpuSectionWritten(cpts: seq<Checkpoint>, i: nat, m: nat, n: nat)
    requires i < n <= |cpts| && m < |cpts[i].sections| && HasCpu(cpts[i].sections[m].name)
    ensures CpuSection(cpts, i, cpts[i].sections[m]) in Merged(cpts, n)
  {
    hide CpuSection, HasCpu, Contributions;
    if i < n - 1 {
      CpuSectionWritten(cpts, i, m, n - 1);
    } else {
      CpuSectionContributed(cpts, i, m, |cpts[i].sections|);
    }
  }

  lemma {:induction false} CpuSectionContributed(cpts: seq<Checkpoint>, i: nat, m: nat, n: nat)
    requires i < |cpts| && m < n <= |cpts[i].sections| && HasCpu(cpts[i].sections[m].name)
    ensures CpuSection(cpts, i, cpts[i].sections[m]) in Contributions(cpts, i, n)
  {
    hide CpuSection, HasCpu;
    if m < n - 1 {
      CpuSectionContributed(cpts, i, m, n - 1);
    }
  }

  /** The merged checkpoint means what the parts meant: every physical address of a CPU
      section is written, under the section's new name, as an address of the merged image
      that holds the same byte. */
  lemma AddressesKeepMeaning(cpts: seq<Checkpoint>, i: nat, m: nat, q: nat)
    requires i < |cpts| && m < |cpts[i].sections| && HasCpu(cpts[i].sections[m].name)
    requires q < |cpts[i].sections[m].items| && cpts[i].sections[m].items[q].PhysAddr?
    requires 0 <= cpts[i].sections[m].items[q].addr < PAGE * cpts[i].pages && Full(cpts[i])
    requires forall k :: 0 <= k < i ==> Full(cpts[k])
    ensures var s := cpts[i].sections[m];
            var out := CpuSection(cpts, i, s);
            && out in Merged(cpts, |cpts|) && out.name == Rename(i, |cpts|, s.name)
            && q < |out.items| && out.items[q].PhysAddr?
            && 0 <= out.items[q].addr < |Layout(cpts, |cpts|)|
            && Layout(cpts, |cpts|)[out.items[q].addr] == cpts[i].image[s.items[q].addr]
  {
    hide HasCpu, Rename, Merged, Layout, MoveItems, SetOption, PagesBefore, IsFdMap;
    var s := cpts[i].sections[m];
    CpuSectionWritten(cpts, i, m, |cpts|);
    MovedItem(s.items, PAGE * PagesBefore(cpts, i), q);
    SetOptionKeeps(MoveItems(s.items, PAGE * PagesBefore(cpts, i)), "M5_pid", Decimal(i), q);
    BytesSurvive(cpts, i, s.items[q].addr);
  }

  /** A section of file descriptors, by its name. */
  lemma FdMapExact(name: string)
    ensures IsFdMap(name) <==> exists a, dot :: |dot| == 1 && name == a + "workload" + dot + "FdMap256"
  {
    if IsFdMap(name) {
      var n := |name|;
      assert name == name[..n - 17] + name[n - 17..n - 9] + name[n - 9..n - 8] + name[n - 8..];
    }
    if a, dot :| |dot| == 1 && name == a + "workload" + dot + "FdMap256" {
      var n := |name|;
      assert name[n - 17..n - 9] == "workload" && name[n - 8..] == "FdMap256";
    }
  }

  lemma {:induction false} SetOptionKeepsOther(items: seq<Item>, key: string, text: string, q: nat)
    requires q < |items| && !HasKey(items[q], key)
    ensures q < |SetOption(items, key, text)| && SetOption(items, key, text)[q] == items[q]
  {
    if q > 0 && !HasKey(items[0], key) {
      SetOptionKeepsOther(items[1..], key, text, q - 1);
    }
  }

  lemma {:induction false} SetOptionHas(items: seq<Item>, key: string, text: string)
    ensures Other(key, text) in SetOption(items, key, text)
  {
    if items != [] && !HasKey(items[0], key) {
      SetOptionHas(items[1..], key, text);
    }
  }

  /** What becomes of the items of a section of checkpoint `i`: addresses move, everything else
      stays where it is, and only a section of file descriptors gets the process id `i`. */
  ghost predicate ItemsOf(cpts: seq<Checkpoint>, i: nat, name: string, items: seq<Item>, out: seq<Item>)
    requires i < |cpts|
  {
    var fds := exists a, dot :: |dot| == 1 && name == a + "workload" + dot + "FdMap256";
    && |out| >= |items|
    && (forall q :: 0 <= q < |items| && items[q].PhysAddr?
          ==> out[q] == PhysAddr(items[q].addr + 4096 * PagesBefore(cpts, i)))
    && (forall q :: 0 <= q < |items| && items[q].Other? && !(fds && items[q].key == "M5_pid") ==> out[q] == items[q])
    && (fds ==> Other("M5_pid", Decimal(i)) in out)
    && (!fds ==> |out| == |items|)
  }

  /** Every CPU section of every checkpoint is written, under its new name, with these items. */
  lemma CpuSectionExact(cpts: seq<Checkpoint>, i: nat, m: nat)
    requires i < |cpts| && m < |cpts[i].sections| && HasCpu(cpts[i].sections[m].name)
    ensures var s := cpts[i].sections[m];
            exists out :: out in Merged(cpts, |cpts|) && out.name == Rename(i, |cpts|, s.name)
                       && ItemsOf(cpts, i, s.name, s.items, out.items)
  {
    hide HasCpu, Rename, Merged, IsFdMap;
    var s := cpts[i].sections[m];
    var out := CpuSection(cpts, i, s);
    CpuSectionWritten(cpts, i, m, |cpts|);
    CpuItems(cpts, i, s);
  }

  lemma CpuItems(cpts: seq<Checkpoint>, i: nat, s: Section)
    requires i < |cpts|
    ensures ItemsOf(cpts, i, s.name, s.items, CpuSection(cpts, i, s).items)
  {
    hide Rename, IsFdMap, SetOption, MoveItems;
    var offset := PAGE * PagesBefore(cpts, i);
    var moved := MoveItems(s.items, offset);
    var out := CpuSection(cpts, i, s).items;
    FdMapExact(s.name);
    forall q | 0 <= q < |s.items|
      ensures q < |out|
      ensures s.items[q].PhysAddr? ==> out[q] == PhysAddr(s.items[q].addr + offset)
      ensures s.items[q].Other? && !(IsFdMap(s.name) && s.items[q].key == "M5_pid") ==> out[q] == s.items[q]
    {
      MovedItem(s.items, offset, q);
      if IsFdMap(s.name) {
        SetOptionLength(moved, "M5_pid", Decimal(i));
        if !HasKey(moved[q], "M5_pid") {
          SetOptionKeepsOther(moved, "M5_pid", Decimal(i), q);
        }
      }
    }
    if IsFdMap(s.name) {
      SetOptionLength(moved, "M5_pid", Decimal(i));
      SetOptionHas(moved, "M5_pid", Decimal(i));
    }
  }

  lemma {:induction false} SetOptionLength(items: seq<Item>, key: string, text: string)
    ensures |SetOption(items, key, text)| >= |items|
  {
    if items != [] && !HasKey(items[0], key) {
      SetOptionLength(items[1..], key, text);
    }
  }

  predicate HasKey(x: Item, key: string) {
    x.Other? && x.key == key
  }

  /** The first option with that key is at `k`. */
  ghost predicate FirstAt(items: seq<Item>, key: string, k: nat) {
    k < |items| && HasKey(items[k], key) && forall j :: 0 <= j < k ==> !HasKey(items[j], key)
  }

  /** Setting an option replaces it where it stands, or adds it at the end; all else stays as
      and where it is. */
  lemma {:induction false} SetOptionSets(items: seq<Item>, key: string, text: string)
    ensures forall k: nat :: FirstAt(items, key, k) ==> SetOption(items, key, text) == items[k := Other(key, text)]
    ensures (forall k :: 0 <= k < |items| ==> !HasKey(items[k], key))
            ==> SetOption(items, key, text) == items + [Other(key, text)]
  {
    if items != [] && !HasKey(items[0], key) {
      var rest := items[1..];
      SetOptionSets(rest, key, text);
      assert items == [items[0]] + rest;
      forall k: nat | FirstAt(items, key, k) ensures SetOption(items, key, text) == items[k := Other(key, text)] {
        assert FirstAt(rest, key, k - 1);
        assert items[k := Other(key, text)] == [items[0]] + rest[k - 1 := Other(key, text)];
      }
    }
  }

  /** The name has a "cpu" in it. */
  ghost predicate NamesCpu(name: string) {
    exists a, b :: name == a + "cpu" + b
  }

  lemma NamesCpuIff(name: string)
    ensures NamesCpu(name) <==> HasCpu(name)
  {
    HasCpuExact(name);
  }

  /** Section `out` is CPU section `s` of checkpoint `i` under its new name. */
  ghost predicate CpuOf(cpts: seq<Checkpoint>, out: Section, i: nat, s: Section)
    requires i < |cpts|
  {
    && s in cpts[i].sections && NamesCpu(s.name)
    && out.name == Rename(i, |cpts|, s.name) && ItemsOf(cpts, i, s.name, s.items, out.items)
  }

  /** Section `out` is in the last checkpoint, and no CPU section nor one that is made anew. */
  ghost predicate LastOther(cpts: seq<Checkpoint>, out: Section) {
    && cpts != [] && out in cpts[|cpts| - 1].sections && !NamesCpu(out.name)
    && out.name != "system" && out.name != "Globals"
  }

  /** Nothing else is written: every merged section is a CPU section of some checkpoint, or
      another section of the last one, as it was. */
  lemma MergedOnly(cpts: seq<Checkpoint>, out: Section)
    requires out in Merged(cpts, |cpts|)
    ensures (exists i: nat, s :: i < |cpts| && CpuOf(cpts, out, i, s)) || LastOther(cpts, out)
  {
    hide Merged, CpuOf, LastOther, ComesFrom;
    var k :| 0 <= k < |Merged(cpts, |cpts|)| && Merged(cpts, |cpts|)[k] == out;
    var i, s := MergedOrigin(cpts, |cpts|, k);
    OriginIs(cpts, out, i, s);
  }

  lemma OriginIs(cpts: seq<Checkpoint>, out: Section, i: nat, s: Section)
    requires i < |cpts| && ComesFrom(cpts, out, i, s)
    ensures CpuOf(cpts, out, i, s) || LastOther(cpts, out)
  {
    hide NamesCpu, HasCpu, ItemsOf, CpuSection;
    NamesCpuIff(s.name);
    CpuItems(cpts, i, s);
    CpuName(cpts, i, s);
  }

  lemma CpuName(cpts: seq<Checkpoint>, i: nat, s: Section)
    requires i < |cpts|
    ensures CpuSection(cpts, i, s).name == Rename(i, |cpts|, s.name)
  {
  }

  /** The other sections of the last checkpoint are written unchanged. */
  lemma OthersKept(cpts: seq<Checkpoint>, s: Section)
    requires cpts != [] && s in cpts[|cpts| - 1].sections
    requires !NamesCpu(s.name) && s.name != "system" && s.name != "Globals"
    ensures s in Merged(cpts, |cpts|)
  {
    NamesCpuIff(s.name);
    var i := |cpts| - 1;
    var m :| 0 <= m < |cpts[i].sections| && cpts[i].sections[m] == s;
    OtherContributed(cpts, m, |cpts[i].sections|);
  }

  lemma {:induction false} OtherContributed(cpts: seq<Checkpoint>, m: nat, n: nat)
    requires cpts != [] && m < n <= |cpts[|cpts| - 1].sections|
    requires !HasCpu(cpts[|cpts| - 1].sections[m].name) && !Dropped(cpts[|cpts| - 1].sections[m].name)
    ensures cpts[|cpts| - 1].sections[m] in Contributions(cpts, |cpts| - 1, n)
  {
    hide HasCpu, Dropped, CpuSection;
    if m < n - 1 {
      OtherContributed(cpts, m, n - 1);
    }
  }

  // ----- The merge itself

  function MaxTick(cpts: seq<Checkpoint>, n: nat): int
    requires n <= |cpts|
  {
    if n == 0 then 0
    else
      var before, tick := MaxTick(cpts, n - 1), cpts[n - 1].curTick;
      if tick.Some? && tick.value > before then tick.value else before
  }

  /** The merged tick is an upper bound of all ticks and, unless it is 0, one of them. */
  lemma {:induction false} MaxTickIsMaximum(cpts: seq<Checkpoint>, n: nat)
    requires n <= |cpts|
    ensures MaxTick(cpts, n) >= 0
    ensures forall i :: 0 <= i < n && cpts[i].curTick.Some? ==> cpts[i].curTick.value <= MaxTick(cpts, n)
    ensures MaxTick(cpts, n) > 0 ==> exists i :: 0 <= i < n && cpts[i].curTick == Some(MaxTick(cpts, n))
  {
    if n > 0 {
      MaxTickIsMaximum(cpts, n - 1);
    }
  }

  const PAD: int := '0' as int

  /** `n` pages of padding. */
  function Padding(n: nat): (r: seq<int>)
    ensures |r| == 4096 * n && forall k :: 0 <= k < |r| ==> r[k] == '0' as int
  {
    if n == 0 then [] else Padding(n - 1) + seq(PAGE, _ => PAD)
  }

  datatype Aggregate = Aggregate(memory: seq<int>, sections: seq<Section>, pagePtr: nat, nextPid: nat,
                                 rangeSize: nat, curTick: int)

  method MergeSections(cpts: seq<Checkpoint>, i: nat, pagePtr: nat) returns (out: seq<Section>)
    requires i < |cpts| && pagePtr == PagesBefore(cpts, i)
    ensures out == Contributions(cpts, i, |cpts[i].sections|)
  {
    hide HasCpu, Rename, MoveItems, SetOption, IsFdMap;
    out := [];
    for m := 0 to |cpts[i].sections|
      invariant out == Contributions(cpts, i, m)
    {
      var sec := cpts[i].sections[m];
      if HasCpu(sec.name) {
        var items := MoveItems(sec.items, PAGE * pagePtr);
        if IsFdMap(sec.name) {
          items := SetOption(items, "M5_pid", Decimal(i));
        }
        out := out + [Section(Rename(i, |cpts|, sec.name), items)];
      } else if !Dropped(sec.name) {
        if i == |cpts| - 1 {
          out := out + [sec];
        }
      }
    }
  }

  /** Merges at least one checkpoint and pads the memory to `memorySize`. */
  method Merge(cpts: seq<Checkpoint>, memorySize: int) returns (a: Aggregate)
    requires cpts != []
    ensures var pages := PagesBefore(cpts, |cpts|);
            && a.memory == Layout(cpts, |cpts|) + Padding(PaddedPages(pages, memorySize) - pages)
            && a.rangeSize == 4096 * PaddedPages(pages, memorySize)
            && a.pagePtr == pages && a.nextPid == |cpts|
            && a.sections == Merged(cpts, |cpts|) && a.curTick == MaxTick(cpts, |cpts|)
  {
    hide Copied, Contributions;
    var pagePtr, tick := 0, 0;
    var memory: seq<int> := [];
    var sections: seq<Section> := [];
    for i := 0 to |cpts|
      invariant pagePtr == PagesBefore(cpts, i) && tick == MaxTick(cpts, i)
      invariant memory == Layout(cpts, i) && sections == Merged(cpts, i)
    {
      var more := MergeSections(cpts, i, pagePtr);
      sections := sections + more;
      if cpts[i].curTick.Some? && cpts[i].curTick.value > tick {
        tick := cpts[i].curTick.value;
      }
      pagePtr := pagePtr + cpts[i].pages;
      var copied := CopyPages(cpts[i].image, cpts[i].pages);
      memory := memory + copied;
    }
    var padded, added := Pad(pagePtr, memorySize);
    a := Aggregate(memory + padded, sections, pagePtr, |cpts|, PAGE * (pagePtr + added), tick);
  }

  method Pad(pages: nat, memorySize: int) returns (padding: seq<int>, added: nat)
    ensures pages + added == PaddedPages(pages, memorySize) && padding == Padding(added)
  {
    padding, added := [], 0;
    var fileSize := PAGE * pages;
    while fileSize < memorySize
      invariant fileSize == PAGE * (pages + added) && padding == Padding(added)
      invariant PaddedPages(pages + added, memorySize) == PaddedPages(pages, memorySize)
      decreases memorySize - fileSize
    {
      padding := padding + seq(PAGE, _ => PAD);
      fileSize := fileSize + PAGE;
      added := added + 1;
    }
  }

  /** The announced size is the least whole number of pages that covers both the pages in use
      and the requested size, and it is the length of the merged image exactly when no image
      is shorter than its page count. */
  lemma RangeSizeExact(cpts: seq<Checkpoint>, memorySize: int)
    ensures var pages := PagesBefore(cpts, |cpts|);
            var size := 4096 * PaddedPages(pages, memorySize);
            && size >= 4096 * pages && size >= memorySize
            && (forall n: nat :: n >= pages && 4096 * n >= memorySize ==> size <= 4096 * n)
            && (|Layout(cpts, |cpts|) + Padding(PaddedPages(pages, memorySize) - pages)| == size
                <==> forall k :: 0 <= k < |cpts| ==> |cpts[k].image| >= 4096 * cpts[k].pages)
  {
    LayoutLength(cpts, |cpts|);
  }
}
