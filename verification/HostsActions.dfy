/** The agent's hosts actions: read the section, edit the list, let the helper write it back. */
module HostsActions {
  import opened Common
  import opened Text
  import opened ManagedSection
  import opened SectionEdits
  import opened Hosts
  import opened HostsTheorems

  datatype Mutation =
    | Add(address: string, hostname: string, comment: Option<string>)
    | Remove(hostname: string)
    | Toggle(hostname: string, enabled: bool)

  datatype Edited = Rejected | Unchanged | Changed(entries: seq<Entry>)

  predicate HasHost(entries: seq<Entry>, hostname: string) {
    exists i :: 0 <= i < |entries| && entries[i].hostname == hostname
  }

  function Retained(entries: seq<Entry>, hostname: string): seq<Entry> {
    if entries == [] then []
    else (if entries[0].hostname == hostname then [] else [entries[0]]) + Retained(entries[1..], hostname)
  }

  function WithEnabled(entry: Entry, hostname: string, enabled: bool): Entry {
    if entry.hostname == hostname then entry.(enabled := enabled) else entry
  }

  function Toggled(entries: seq<Entry>, hostname: string, enabled: bool): (r: seq<Entry>)
    ensures |r| == |entries|
    ensures forall i :: 0 <= i < |entries| ==> r[i] == WithEnabled(entries[i], hostname, enabled)
  {
    if entries == [] then []
    else [WithEnabled(entries[0], hostname, enabled)] + Toggled(entries[1..], hostname, enabled)
  }

  function Mutate(current: seq<Entry>, m: Mutation): Edited {
    match m
    case Add(address, hostname, comment) =>
      if HasHost(current, hostname) then Rejected else Changed(current + [Entry(address, hostname, comment, true)])
    case Remove(hostname) =>
      if HasHost(current, hostname) then Changed(Retained(current, hostname)) else Unchanged
    case Toggle(hostname, enabled) =>
      if HasHost(current, hostname) then Changed(Toggled(current, hostname, enabled)) else Rejected
  }

  lemma {:induction false} RetainedSnoc(entries: seq<Entry>, entry: Entry, hostname: string)
    ensures Retained(entries + [entry], hostname) ==
              Retained(entries, hostname) + (if entry.hostname == hostname then [] else [entry])
  {
    if entries == [] {
      assert entries + [entry] == [entry] && [entry][1..] == [];
    } else {
      assert (entries + [entry])[0] == entries[0] && (entries + [entry])[1..] == entries[1..] + [entry];
      RetainedSnoc(entries[1..], entry, hostname);
    }
  }

  lemma {:induction false} RetainedShorter(entries: seq<Entry>, hostname: string)
    ensures |Retained(entries, hostname)| <= |entries|
    ensures |Retained(entries, hostname)| == |entries| <==> !HasHost(entries, hostname)
    ensures !HasHost(entries, hostname) ==> Retained(entries, hostname) == entries
  {
    if entries != [] {
      RetainedShorter(entries[1..], hostname);
      assert entries == [entries[0]] + entries[1..];
      if HasHost(entries[1..], hostname) {
        var i :| 0 <= i < |entries| - 1 && entries[1..][i].hostname == hostname;
        assert entries[i + 1].hostname == hostname;
      }
      if HasHost(entries, hostname) && entries[0].hostname != hostname {
        var i :| 0 <= i < |entries| && entries[i].hostname == hostname;
        assert entries[1..][i - 1].hostname == hostname;
      }
    }
  }

  /** The three list edits, as the agent makes them. */
  method ApplyMutation(current: seq<Entry>, m: Mutation) returns (r: Edited)
    ensures r == Mutate(current, m)
  {
    var entries := current;
    match m
    case Add(address, hostname, comment) =>
      if HasHost(current, hostname) {
        return Rejected;
      }
      return Changed(entries + [Entry(address, hostname, comment, true)]);
    case Remove(hostname) =>
      entries := Retain(current, hostname);
      RetainedShorter(current, hostname);
      if |entries| == |current| {
        return Unchanged;
      }
      return Changed(entries);
    case Toggle(hostname, enabled) =>
      var found;
      entries, found := SetEnabled(current, hostname, enabled);
      if !found {
        return Rejected;
      }
      return Changed(entries);
  }

  method SetEnabled(current: seq<Entry>, hostname: string, enabled: bool) returns (entries: seq<Entry>, found: bool)
    ensures entries == Toggled(current, hostname, enabled) && (found <==> HasHost(current, hostname))
  {
    entries, found := current, false;
    for i := 0 to |entries|
      invariant |entries| == |current|
      invariant found <==> HasHost(current[..i], hostname)
      invariant forall k :: 0 <= k < i ==> entries[k] == WithEnabled(current[k], hostname, enabled)
      invariant forall k :: i <= k < |entries| ==> entries[k] == current[k]
    {
      assert current[..i + 1] == current[..i] + [current[i]];
      HasHostSnoc(current[..i], current[i], hostname);
      if entries[i].hostname == hostname {
        entries := entries[i := entries[i].(enabled := enabled)];
        found := true;
      }
    }
    assert current[..|current|] == current;
  }

  lemma HasHostSnoc(entries: seq<Entry>, entry: Entry, hostname: string)
    ensures HasHost(entries + [entry], hostname) <==> HasHost(entries, hostname) || entry.hostname == hostname
  {
    var all := entries + [entry];
    assert all[|entries|] == entry;
    if HasHost(entries, hostname) {
      var i :| 0 <= i < |entries| && entries[i].hostname == hostname;
      assert all[i].hostname == hostname;
    }
  }

  /** `Vec::retain` */
  method Retain(current: seq<Entry>, hostname: string) returns (entries: seq<Entry>)
    ensures entries == Retained(current, hostname)
  {
    entries := [];
    for i := 0 to |current|
      invariant entries == Retained(current[..i], hostname)
    {
      assert current[..i + 1] == current[..i] + [current[i]];
      RetainedSnoc(current[..i], current[i], hostname);
      if current[i].hostname != hostname {
        entries := entries + [current[i]];
      }
    }
    assert current[..|current|] == current;
  }

  // ---- A whole action ----

  datatype Outcome = Failed | Kept | Written(text: string)

  /** The helper decodes each address and prints it in its own form. */
  function Printed(entries: seq<Entry>, canonical: string -> string): seq<Entry> {
    if entries == [] then []
    else [entries[0].(address := canonical(entries[0].address))] + Printed(entries[1..], canonical)
  }

  predicate AllAddresses(entries: seq<Entry>, isAddress: string -> bool) {
    forall i :: 0 <= i < |entries| ==> isAddress(entries[i].address)
  }

  /** One mutating action on the file's text. */
  function Act(
      content: string, profile: string, m: Mutation, isAddress: string -> bool, canonical: string -> string): Outcome
  {
    var current := Parse(content, profile, isAddress);
    if current.Err? then Failed else WriteBack(content, profile, Mutate(current.value, m), isAddress, canonical)
  }

  function WriteBack(
      content: string, profile: string, edited: Edited, isAddress: string -> bool, canonical: string -> string): Outcome
  {
    match edited
    case Rejected => Failed
    case Unchanged => Kept
    case Changed(entries) =>
      if !AllAddresses(entries, isAddress) then Failed
      else Finished(Replace(content, profile, Printed(entries, canonical)))
  }

  function Finished(r: Result<string>): Outcome {
    if r.Err? then Failed else Written(r.value)
  }

  /** What is assumed of the address type: its printed form is an address and prints as itself. */
  ghost predicate Canonical(isAddress: string -> bool, canonical: string -> string) {
    && PlainAddresses(isAddress)
    && (forall a :: isAddress(a) ==> isAddress(canonical(a)) && canonical(canonical(a)) == canonical(a))
  }

  lemma {:induction false} PrintedAddressed(entries: seq<Entry>, isAddress: string -> bool, canonical: string -> string)
    requires AllAddresses(entries, isAddress) && Canonical(isAddress, canonical)
    ensures Addressed(Printed(entries, canonical), isAddress)
    ensures Printed(Printed(entries, canonical), canonical) == Printed(entries, canonical)
  {
    if entries != [] {
      PrintedAddressed(entries[1..], isAddress, canonical);
      var p := Printed(entries, canonical);
      assert p[1..] == Printed(entries[1..], canonical);
      assert p == [p[0]] + p[1..];
    }
  }

  /** Whatever action wrote the file, reading the profile gives the edited list. */
  lemma ActReadsBack(
      content: string, profile: string, m: Mutation, isAddress: string -> bool, canonical: string -> string)
    requires Canonical(isAddress, canonical)
    requires Act(content, profile, m, isAddress, canonical).Written?
    ensures var current := Parse(content, profile, isAddress);
            && current.Ok? && Mutate(current.value, m).Changed?
            && Parse(Act(content, profile, m, isAddress, canonical).text, profile, isAddress)
                 == Ok(TrimComments(Printed(Mutate(current.value, m).entries, canonical)))
  {
    var entries := Mutate(Parse(content, profile, isAddress).value, m).entries;
    PrintedAddressed(entries, isAddress, canonical);
    RoundTrip(content, profile, Printed(entries, canonical), isAddress);
  }

  // ---- Adding and removing again ----

  lemma TrimTwice(s: string)
    ensures Trim(Trim(s)) == Trim(s)
  {
    var a, b := TrimParts(s);
    TrimBare(Trim(s));
  }

  lemma {:induction false} TrimPrinted(entries: seq<Entry>, canonical: string -> string)
    ensures TrimComments(Printed(entries, canonical)) == Printed(TrimComments(entries), canonical)
  {
    if entries != [] {
      TrimPrinted(entries[1..], canonical);
      assert Printed(entries, canonical)[1..] == Printed(entries[1..], canonical);
      assert TrimComments(entries)[1..] == TrimComments(entries[1..]);
    }
  }

  /** What the parser returns is already trimmed and has parsed addresses. */
  ghost predicate Settled(entry: Entry, isAddress: string -> bool) {
    Trimmed(entry) == entry && isAddress(entry.address)
  }

  lemma FieldsSettled(text: string, enabled: bool, isAddress: string -> bool)
    ensures var r := ParseFields(text, enabled, isAddress); r.Ok? ==> Settled(r.value, isAddress)
  {
    match Cut(text, '#')
    case (all, None) =>
      ParsedSettled(Words(all), None, enabled, isAddress);
    case (before, Some(note)) =>
      TrimTwice(note);
      ParsedSettled(Words(TrimEnd(before)), Some(Trim(note)), enabled, isAddress);
  }

  lemma ParsedSettled(fields: seq<string>, comment: Option<string>, enabled: bool, isAddress: string -> bool)
    requires comment.Some? ==> Trim(comment.value) == comment.value
    ensures var r := Parsed(fields, comment, enabled, isAddress); r.Ok? ==> Settled(r.value, isAddress)
  {}

  lemma EntrySettled(line: string, isAddress: string -> bool)
    ensures var r := Reader(isAddress)(line); r.Ok? ==> Settled(r.value, isAddress)
  {
    if DISABLED <= line {
      FieldsSettled(TrimStart(line[|DISABLED|..]), false, isAddress);
    } else {
      FieldsSettled(line, true, isAddress);
    }
  }

  lemma {:induction false} LinesSettled(lines: seq<string>, isAddress: string -> bool)
    ensures var r := ReadLines(lines, Reader(isAddress));
            r.Ok? ==> TrimComments(r.value) == r.value && AllAddresses(r.value, isAddress)
  {
    if lines != [] {
      LinesSettled(lines[1..], isAddress);
      var r := ReadLines(lines, Reader(isAddress));
      if lines[0] != [] && r.Ok? {
        EntrySettled(lines[0], isAddress);
        var rest := ReadLines(lines[1..], Reader(isAddress)).value;
        assert r.value[1..] == rest;
      }
    }
  }

  lemma ParseSettled(content: string, profile: string, isAddress: string -> bool)
    ensures var r := Parse(content, profile, isAddress);
            r.Ok? ==> TrimComments(r.value) == r.value && AllAddresses(r.value, isAddress)
  {
    var trimmed := TrimAll(Lines(content));
    var start, finish := PositionOf(trimmed, BeginMarker(profile)), PositionOf(trimmed, EndMarker(profile));
    if start < finish {
      LinesSettled(trimmed[start + 1..finish], isAddress);
    }
  }

  lemma {:induction false} PrintedSnoc(entries: seq<Entry>, entry: Entry, canonical: string -> string)
    ensures Printed(entries + [entry], canonical)
        == Printed(entries, canonical) + [entry.(address := canonical(entry.address))]
  {
    if entries == [] {
      assert entries + [entry] == [entry] && [entry][1..] == [];
    } else {
      assert (entries + [entry])[0] == entries[0] && (entries + [entry])[1..] == entries[1..] + [entry];
      PrintedSnoc(entries[1..], entry, canonical);
    }
  }

  lemma {:induction false} TrimCommentsSnoc(entries: seq<Entry>, entry: Entry)
    ensures TrimComments(entries + [entry]) == TrimComments(entries) + [Trimmed(entry)]
  {
    if entries == [] {
      assert entries + [entry] == [entry] && [entry][1..] == [];
    } else {
      assert (entries + [entry])[0] == entries[0] && (entries + [entry])[1..] == entries[1..] + [entry];
      TrimCommentsSnoc(entries[1..], entry);
    }
  }

  lemma {:induction false} PrintedHosts(entries: seq<Entry>, canonical: string -> string)
    ensures |Printed(entries, canonical)| == |entries|
    ensures forall i :: 0 <= i < |entries| ==>
              Printed(entries, canonical)[i] == entries[i].(address := canonical(entries[i].address))
  {
    if entries != [] {
      PrintedHosts(entries[1..], canonical);
    }
  }

  /** The list after adding: the old one as the helper prints it, then the new entry. */
  lemma AfterAdding(
      es: seq<Entry>, added: Entry, isAddress: string -> bool, canonical: string -> string)
    returns (x: Entry)
    requires TrimComments(es) == es && !HasHost(es, added.hostname)
    ensures TrimComments(Printed(es + [added], canonical)) == Printed(es, canonical) + [x]
    ensures x.hostname == added.hostname
    ensures !HasHost(Printed(es, canonical), added.hostname)
    ensures Retained(Printed(es, canonical) + [x], added.hostname) == Printed(es, canonical)
    ensures HasHost(Printed(es, canonical) + [x], added.hostname)
  {
    var printed := added.(address := canonical(added.address));
    x := Trimmed(printed);
    PrintedSnoc(es, added, canonical);
    TrimCommentsSnoc(Printed(es, canonical), printed);
    TrimPrinted(es, canonical);
    PrintedHosts(es, canonical);
    RetainedSnoc(Printed(es, canonical), x, added.hostname);
    RetainedShorter(Printed(es, canonical), added.hostname);
    HasHostSnoc(Printed(es, canonical), x, added.hostname);
  }

  /** The helper accepts any valid list for a section it has just written. */
  lemma ReplaceAgain(
      existing: string, profile: string, entries: seq<Entry>, others: seq<Entry>, isAddress: string -> bool)
    requires Replace(existing, profile, entries).Ok? && Addressed(entries, isAddress) && AllValid(others)
    ensures Replace(Replace(existing, profile, entries).value, profile, others).Ok?
  {
    SectionProper(profile, entries, isAddress);
    EditAgain(existing, BeginMarker(profile), EndMarker(profile), EntryLines(entries), SectionLines(profile, others),
        IsBegin);
  }

  lemma AddedParts(
      content: string, profile: string, added: Entry, isAddress: string -> bool, canonical: string -> string)
    returns (es: seq<Entry>)
    requires added.enabled
    requires Act(content, profile, Add(added.address, added.hostname, added.comment), isAddress, canonical).Written?
    ensures Parse(content, profile, isAddress) == Ok(es) && !HasHost(es, added.hostname)
    ensures AllAddresses(es + [added], isAddress) && AllAddresses(es, isAddress) && TrimComments(es) == es
    ensures Replace(content, profile, Printed(es + [added], canonical)) ==
              Ok(Act(content, profile, Add(added.address, added.hostname, added.comment), isAddress, canonical).text)
    ensures AllValid(Printed(es, canonical))
  {
    es := Parse(content, profile, isAddress).value;
    ParseSettled(content, profile, isAddress);
    PrintedSnoc(es, added, canonical);
    var all := Printed(es + [added], canonical);
    assert forall i :: 0 <= i < |Printed(es, canonical)| ==> Printed(es, canonical)[i] == all[i];
  }

  /** Removing a host that was just added leaves the profile with what it had before, addresses as printed. */
  lemma AddThenRemove(
      content: string, profile: string, added: Entry, isAddress: string -> bool, canonical: string -> string)
    requires Canonical(isAddress, canonical) && added.enabled
    requires Act(content, profile, Add(added.address, added.hostname, added.comment), isAddress, canonical).Written?
    ensures var add := Add(added.address, added.hostname, added.comment);
            var t := Act(content, profile, add, isAddress, canonical).text;
            var u := Act(t, profile, Remove(added.hostname), isAddress, canonical);
            && Parse(content, profile, isAddress).Ok? && u.Written?
            && Parse(u.text, profile, isAddress) == Ok(Printed(Parse(content, profile, isAddress).value, canonical))
  {
    var es := AddedParts(content, profile, added, isAddress, canonical);
    var all, printed := Printed(es + [added], canonical), Printed(es, canonical);
    var x := AfterAdding(es, added, isAddress, canonical);
    PrintedAddressed(es, isAddress, canonical);
    PrintedAddressed(es + [added], isAddress, canonical);
    RoundTrip(content, profile, all, isAddress);
    ReplaceAgain(content, profile, all, printed, isAddress);
    var t := Replace(content, profile, all).value;
    RoundTrip(t, profile, printed, isAddress);
    RemoveWrites(t, profile, added.hostname, printed + [x], printed, isAddress, canonical);
    TrimPrinted(es, canonical);
  }

  lemma RemoveWrites(
      t: string, profile: string, hostname: string, current: seq<Entry>, kept: seq<Entry>, isAddress: string -> bool,
      canonical: string -> string)
    requires Parse(t, profile, isAddress) == Ok(current) && HasHost(current, hostname)
    requires Retained(current, hostname) == kept
    requires AllAddresses(kept, isAddress) && Printed(kept, canonical) == kept
    ensures Act(t, profile, Remove(hostname), isAddress, canonical) == Finished(Replace(t, profile, kept))
  {
    assert Mutate(current, Remove(hostname)) == Changed(kept);
  }
}
