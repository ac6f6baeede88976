/** The application's workspaces: each names the tables its sidebar and
    command palette offer, and the tables shown but not yet usable. */
module Workspaces {
  import opened Wrappers

  /** A workspace's name and tables (its icon and colour are presentation). */
  datatype Workspace = Workspace(name: string, tables: seq<string>, inactiveTables: seq<string>)

  /** The hospital workspace. */
  const Hcj := Workspace("Hopital de Juvenat",
    ["medicaments", "stock", "patients", "ordonnances", "sorties", "requisition"],
    ["ordonnances"])

  /** The human-resources workspace. */
  const Rh := Workspace("Ressources Humaines",
    ["personnel", "timesheet", "rapport_temps", "contrats", "conges", "evaluations", "formations"],
    ["rapport_temps", "contrats", "conges", "evaluations", "formations"])

  /** The central-office workspace. */
  const Abc := Workspace("Administration Bureau Central",
    ["requisition", "decaissement", "achats", "paies"],
    [])

  /** The configured workspaces by key, in declaration order (the order
      `Object.entries` gives). */
  const Configured: seq<(string, Workspace)> := [("hcj", Hcj), ("rh", Rh), ("abc", Abc)]

  /** The keys of some workspace entries, in order. */
  function EntryKeys(entries: seq<(string, Workspace)>): (ks: seq<string>)
    ensures |ks| == |entries|
    ensures forall i :: 0 <= i < |entries| ==> ks[i] == entries[i].0
  {
    seq(|entries|, i requires 0 <= i < |entries| => entries[i].0)
  }

  /** `entries[key]` on the object the entries make: the first entry with
      that key. */
  function Lookup(entries: seq<(string, Workspace)>, key: string): (w: Option<Workspace>)
    ensures w.Some? <==> key in EntryKeys(entries)
    ensures w.Some? ==> (key, w.value) in entries
  {
    if entries == [] then None
    else if entries[0].0 == key then Some(entries[0].1)
    else
      var w := Lookup(entries[1..], key);
      assert EntryKeys(entries) == [entries[0].0] + EntryKeys(entries[1..]);
      w
  }
}
