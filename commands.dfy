/**
 * The kernel monitor's command registry: a fixed, read-only table of
 * (name, description, handler), the first-match lookup `runcmd` performs on
 * it, the `help` listing, and the footprint arithmetic of `kerninfo`.
 */
module Commands {
  import opened Wrappers

  /** The handlers registered in the table, one variant per function. */
  datatype Handler = Help | KernInfo | ChangeColor

  datatype Command = Command(name: string, desc: string, handler: Handler)

  /** The `commands` array, in registration order. */
  const Table: seq<Command> := [
    Command("help", "Display this list of commands", Help),
    Command("kerninfo", "Display information about the kernel", KernInfo),
    Command("change_color", "Change text attributes ", ChangeColor)
  ]

  /** The first entry at or after `i` whose name is `name`. */
  function FindFrom(name: string, i: nat): (r: Option<nat>)
    ensures r.Some? ==>
      i <= r.value < |Table| && Table[r.value].name == name &&
      forall j :: i <= j < r.value ==> Table[j].name != name
    ensures r.None? ==> forall j :: i <= j < |Table| ==> Table[j].name != name
    decreases |Table| - i
  {
    if i >= |Table| then None
    else if Table[i].name == name then Some(i)
    else FindFrom(name, i + 1)
  }

  /** The entry `runcmd` dispatches a command name to. */
  function FindCommand(name: string): Option<nat>
  {
    FindFrom(name, 0)
  }

  /** Registered names are pairwise distinct, so at most one entry matches. */
  lemma NamesUnique()
    ensures forall i, j :: 0 <= i < j < |Table| ==> Table[i].name != Table[j].name
  {
  }

  /** A name matches an entry exactly when the lookup returns that entry. */
  lemma FindCommandExact(name: string, i: nat)
    requires i < |Table|
    ensures FindCommand(name) == Some(i) <==> Table[i].name == name
  {
  }

  /** The linear lookup loop of `runcmd`: strcmp against each entry in turn,
      stopping at the first match. */
  method Lookup(name: string) returns (r: Option<nat>)
    ensures r == FindCommand(name)
  {
    for i := 0 to |Table|
      invariant FindFrom(name, i) == FindCommand(name)
    {
      if Table[i].name == name {
        return Some(i);
      }
    }
    return None;
  }

  /** `mon_help`: one (name, description) line per entry, in table order. */
  method MonHelp() returns (r: int, listing: seq<(string, string)>)
    ensures r == 0
    ensures |listing| == |Table|
    ensures forall i :: 0 <= i < |Table| ==> listing[i] == (Table[i].name, Table[i].desc)
  {
    listing := [];
    for i := 0 to |Table|
      invariant |listing| == i
      invariant forall j :: 0 <= j < i ==> listing[j] == (Table[j].name, Table[j].desc)
    {
      listing := listing + [(Table[i].name, Table[i].desc)];
    }
    r := 0;
  }

  /** The footprint `kerninfo` prints: ROUNDUP(size, 1024) / 1024, that is the
      size in KB rounded up. */
  function FootprintKB(size: nat): (kb: nat)
    ensures size <= kb * 1024 < size + 1024
  {
    var up := (size + 1023) - (size + 1023) % 1024;
    up / 1024
  }
}
