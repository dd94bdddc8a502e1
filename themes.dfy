/**
 * Colour themes: the colour map's structure check, the CSS custom properties a theme turns
 * into for light and dark mode, the built-in palette, and the rule that at most one theme
 * is the default.
 */
module Themes {
  import opened Wrappers
  import opened Text
  import Seqs

  /** The colour keys a full palette has; the `_dark` ones are optional. */
  const RequiredColors: seq<string> := [
    "primary", "secondary", "accent", "background", "surface", "text", "success", "warning",
    "error", "info", "border", "shadow", "primary_dark", "secondary_dark", "accent_dark",
    "background_dark", "surface_dark", "text_dark"]

  const MaxNameLength: nat := 50

  /** One colour of a theme's map. */
  datatype Entry = Entry(key: string, value: string)

  /**
   * The `colors` column: missing, a JSON object (its entries in order), or some other JSON
   * value, kept as its text.
   */
  datatype Colors = Missing | Hash(entries: seq<Entry>) | NonHash(text: string)
  {
    /** Rails `blank?`: nil, an empty object, or blank text. */
    predicate Blank() {
      Missing? || (Hash? && entries == []) || (NonHash? && IsBlank(text))
    }
  }

  /** A hash has each key once. */
  predicate UniqueKeys(entries: seq<Entry>) {
    forall i, j :: 0 <= i < j < |entries| ==> entries[i].key != entries[j].key
  }

  /** The keys of the map, in order. */
  function Keys(entries: seq<Entry>): (r: seq<string>)
    ensures |r| == |entries| && forall i :: 0 <= i < |entries| ==> r[i] == entries[i].key
  {
    seq(|entries|, i requires 0 <= i < |entries| => entries[i].key)
  }

  /** The value stored under `key`. */
  function Lookup(entries: seq<Entry>, key: string): (r: Option<string>)
    ensures r.Some? ==> Entry(key, r.value) in entries
    ensures r.None? <==> forall i :: 0 <= i < |entries| ==> entries[i].key != key
  {
    if entries == [] then None
    else if entries[0].key == key then Some(entries[0].value)
    else Lookup(entries[1..], key)
  }

  /** In a hash, the value found for an entry's key is that entry's value. */
  lemma LookupAt(entries: seq<Entry>, i: nat)
    requires UniqueKeys(entries) && i < |entries|
    ensures Lookup(entries, entries[i].key) == Some(entries[i].value)
  {
    if i > 0 {
      assert UniqueKeys(entries[1..]) by {
        forall a, b | 0 <= a < b < |entries| - 1 ensures entries[1..][a].key != entries[1..][b].key {
          assert entries[1..][a] == entries[a + 1] && entries[1..][b] == entries[b + 1];
        }
      }
      assert entries[1..][i - 1] == entries[i];
      LookupAt(entries[1..], i - 1);
    }
  }

  /** `theme.color(key)`: the value under the key, nothing without colours. */
  function Color(colors: Colors, key: string): (r: Option<string>)
    requires !colors.NonHash?
    ensures colors.Missing? ==> r.None?
    ensures colors.Hash? ==> r == Lookup(colors.entries, key)
  {
    if colors.Missing? then None else Lookup(colors.entries, key)
  }

  predicate IsHexDigit(c: char) {
    IsDigit(c) || 'a' <= c <= 'f' || 'A' <= c <= 'F'
  }

  /** `/\A#[0-9A-Fa-f]{6}\z/`. */
  predicate IsHexColor(v: string) {
    |v| == 7 && v[0] == '#' && forall i :: 1 <= i < 7 ==> IsHexDigit(v[i])
  }

  /** A colour value the structure check accepts: `rgba(`…, `rgb(`…, or a six-digit hex colour. */
  predicate IsColorValue(v: string) {
    StartsWith(v, "rgba(") || StartsWith(v, "rgb(") || IsHexColor(v)
  }

  /** The required keys, without the optional `_dark` ones, that the map lacks (`REQUIRED_COLORS.reject … - colors.keys`). */
  function MissingKeys(entries: seq<Entry>): (r: seq<string>)
    ensures forall k :: k in r <==> k in RequiredColors && !EndsWith(k, "_dark") && k !in Keys(entries)
  {
    Seqs.Filter(RequiredColors, (k: string) => !EndsWith(k, "_dark") && k !in Keys(entries))
  }

  function MissingMessage(missing: seq<string>): string {
    "missing required keys: " + Join(missing, ", ")
  }

  function FormatMessage(key: string): string {
    key + " must be a valid hex color or rgb/rgba value"
  }

  /** One message per entry whose value is not a colour, in the map's order. */
  function FormatErrors(entries: seq<Entry>): (r: seq<string>)
    ensures r == [] <==> forall i :: 0 <= i < |entries| ==> IsColorValue(entries[i].value)
    ensures |r| <= |entries|
  {
    if entries == [] then []
    else
      var rest := FormatErrors(entries[1..]);
      assert forall i :: 1 <= i < |entries| ==> entries[1..][i - 1] == entries[i];
      (if IsColorValue(entries[0].value) then [] else [FormatMessage(entries[0].key)]) + rest
  }

  /**
   * What `validate_colors_structure` adds: nothing for blank colours, "must be a hash" for
   * anything but an object, else the missing keys' message and one message per bad value.
   */
  function StructureErrors(colors: Colors): (r: seq<string>)
    ensures colors.Blank() ==> r == []
    ensures colors.NonHash? && !colors.Blank() ==> r == ["must be a hash"]
    ensures colors.Hash? && !colors.Blank() ==>
      (r == [] <==> MissingKeys(colors.entries) == []
                    && forall i :: 0 <= i < |colors.entries| ==> IsColorValue(colors.entries[i].value))
  {
    if colors.Blank() then []
    else if colors.NonHash? then ["must be a hash"]
    else
      var missing := MissingKeys(colors.entries);
      (if missing == [] then [] else [MissingMessage(missing)]) + FormatErrors(colors.entries)
  }

  /** The structure check passes exactly when every light key is present and every value is a colour. */
  lemma StructureAccepted(entries: seq<Entry>)
    requires entries != []
    ensures StructureErrors(Hash(entries)) == [] <==>
      (forall k :: k in RequiredColors && !EndsWith(k, "_dark") ==> k in Keys(entries))
      && (forall i :: 0 <= i < |entries| ==> IsColorValue(entries[i].value))
  {
    var missing := MissingKeys(entries);
    if missing != [] {
      assert missing[0] in missing;
    }
  }

  /** `validate_colors_structure`: the format loop appends one message per bad value. */
  method ValidateColorsStructure(colors: Colors) returns (errors: seq<string>)
    ensures errors == StructureErrors(colors)
  {
    errors := [];
    if colors.Blank() {
      return;
    }
    if !colors.Hash? {
      errors := errors + ["must be a hash"];
      return;
    }
    var missing := MissingKeys(colors.entries);
    if missing != [] {
      errors := errors + [MissingMessage(missing)];
    }
    errors := AppendFormatErrors(errors, colors.entries);
  }

  /** The `colors.each` loop of the structure check. */
  method AppendFormatErrors(prefix: seq<string>, entries: seq<Entry>) returns (errors: seq<string>)
    ensures errors == prefix + FormatErrors(entries)
  {
    errors := prefix;
    var i := 0;
    while i < |entries|
      invariant 0 <= i <= |entries|
      invariant errors + FormatErrors(entries[i..]) == prefix + FormatErrors(entries)
    {
      var e := entries[i];
      var head := if IsColorValue(e.value) then [] else [FormatMessage(e.key)];
      FormatStep(entries, i, errors, head);
      errors := errors + head;
      i := i + 1;
    }
    assert entries[|entries|..] == [];
  }

  /** One step of the `colors.each` loop: the entry at `i` contributes `head`. */
  lemma FormatStep(from: seq<Entry>, i: nat, errors: seq<string>, head: seq<string>)
    requires i < |from|
    requires head == if IsColorValue(from[i].value) then [] else [FormatMessage(from[i].key)]
    ensures errors + FormatErrors(from[i..]) == (errors + head) + FormatErrors(from[i + 1..])
  {
    assert from[i..][1..] == from[i + 1..];
    var rest := FormatErrors(from[i + 1..]);
    assert FormatErrors(from[i..]) == head + rest;
    assert errors + (head + rest) == (errors + head) + rest;
  }

  /** `dasherize`: every underscore becomes a hyphen. */
  function Dasherize(s: string): (r: string)
    ensures |r| == |s|
    ensures forall i :: 0 <= i < |s| ==> r[i] == (if s[i] == '_' then '-' else s[i])
  {
    seq(|s|, i requires 0 <= i < |s| => if s[i] == '_' then '-' else s[i])
  }

  /** Rails `present?` on a looked-up value. */
  predicate Present(v: Option<string>) {
    v.Some? && !IsBlank(v.value)
  }

  /**
   * The variable one entry contributes: in dark mode an entry with a present `_dark`
   * variant uses that variant's value; otherwise an entry whose key does not end in `_dark`
   * uses its own value, and the others contribute nothing.
   */
  function Variable(entries: seq<Entry>, e: Entry, dark: bool): (r: Option<Entry>)
    ensures r.Some? ==> r.value.key == e.key
  {
    if dark && Present(Lookup(entries, e.key + "_dark")) then Some(Entry(e.key, Lookup(entries, e.key + "_dark").value))
    else if !EndsWith(e.key, "_dark") then Some(e)
    else None
  }

  /** The variables of the entries `from` on, in order, looked up in the whole map `all`. */
  function Variables(all: seq<Entry>, from: seq<Entry>, dark: bool): seq<Entry> {
    if from == [] then []
    else (match Variable(all, from[0], dark) case None => [] case Some(v) => [v]) + Variables(all, from[1..], dark)
  }

  /** A variable is emitted exactly when some entry contributes it. */
  lemma {:induction false} VariablesMembers(all: seq<Entry>, from: seq<Entry>, dark: bool)
    ensures forall v :: v in Variables(all, from, dark) <==> exists e :: e in from && Variable(all, e, dark) == Some(v)
  {
    if from != [] {
      VariablesMembers(all, from[1..], dark);
      assert forall e :: e in from <==> e == from[0] || e in from[1..];
    }
  }

  /** One CSS custom property. */
  function Declaration(v: Entry): (r: string)
    ensures StartsWith(r, "--color-") && EndsWith(r, ";")
  {
    "--color-" + Dasherize(v.key) + ": " + v.value + ";"
  }

  function Declarations(vs: seq<Entry>): (r: seq<string>)
    ensures |r| == |vs| && forall i :: 0 <= i < |vs| ==> r[i] == Declaration(vs[i])
  {
    seq(|vs|, i requires 0 <= i < |vs| => Declaration(vs[i]))
  }

  /** In light mode exactly the keys that do not end in `_dark` are emitted, with their own values. */
  lemma LightVariables(entries: seq<Entry>)
    ensures forall v :: v in Variables(entries, entries, false) <==> v in entries && !EndsWith(v.key, "_dark")
  {
    VariablesMembers(entries, entries, false);
  }

  /**
   * In dark mode every light key is emitted, with its `_dark` variant's value when that is
   * present and its own otherwise; a `_dark` key is emitted only when it has a present
   * variant of its own.
   */
  lemma DarkVariables(entries: seq<Entry>)
    requires UniqueKeys(entries)
    ensures forall i :: 0 <= i < |entries| && !EndsWith(entries[i].key, "_dark") ==>
      var dv := Lookup(entries, entries[i].key + "_dark");
      Entry(entries[i].key, if Present(dv) then dv.value else entries[i].value) in Variables(entries, entries, true)
    ensures forall v :: v in Variables(entries, entries, true) && EndsWith(v.key, "_dark") ==>
      Present(Lookup(entries, v.key + "_dark"))
  {
    VariablesMembers(entries, entries, true);
    forall i | 0 <= i < |entries| && !EndsWith(entries[i].key, "_dark")
      ensures var dv := Lookup(entries, entries[i].key + "_dark");
        Entry(entries[i].key, if Present(dv) then dv.value else entries[i].value) in Variables(entries, entries, true)
    {
      assert entries[i] in entries;
    }
  }

  /** `to_css_variables`: "" for blank colours, else one declaration per emitted entry, one per line. */
  method ToCssVariables(colors: Colors, dark: bool) returns (css: string)
    requires !colors.NonHash?
    ensures colors.Blank() ==> css == ""
    ensures !colors.Blank() ==> css == Join(Declarations(Variables(colors.entries, colors.entries, dark)), "\n")
  {
    if colors.Blank() {
      return "";
    }
    var vars := CollectVariables(colors.entries, dark);
    css := Join(Declarations(vars), "\n");
  }

  /** The `colors.each` loop of `to_css_variables`. */
  method CollectVariables(entries: seq<Entry>, dark: bool) returns (vars: seq<Entry>)
    ensures vars == Variables(entries, entries, dark)
  {
    vars := [];
    var i := 0;
    while i < |entries|
      invariant 0 <= i <= |entries|
      invariant vars + Variables(entries, entries[i..], dark) == Variables(entries, entries, dark)
    {
      var v := Variable(entries, entries[i], dark);
      var head := match v case None => [] case Some(x) => [x];
      VariablesStep(entries, entries, i, dark, vars, head);
      vars := vars + head;
      i := i + 1;
    }
    assert entries[|entries|..] == [];
  }

  /** One turn of the loop: the entry at `i` contributes `head`, the rest follow. */
  lemma VariablesStep(all: seq<Entry>, from: seq<Entry>, i: nat, dark: bool, vars: seq<Entry>, head: seq<Entry>)
    requires i < |from|
    requires head == match Variable(all, from[i], dark) case None => [] case Some(x) => [x]
    ensures vars + Variables(all, from[i..], dark) == (vars + head) + Variables(all, from[i + 1..], dark)
  {
    assert from[i..][1..] == from[i + 1..];
    var rest := Variables(all, from[i + 1..], dark);
    assert Variables(all, from[i..], dark) == head + rest;
    assert vars + (head + rest) == (vars + head) + rest;
  }

  /** `Theme.default_colors`: the built-in palette. */
  const DefaultColors: seq<Entry> := [
    Entry("primary", "#3b82f6"), Entry("secondary", "#8b5cf6"), Entry("accent", "#f59e0b"),
    Entry("background", "#ffffff"), Entry("surface", "#f8fafc"), Entry("text", "#1f2937"),
    Entry("success", "#10b981"), Entry("warning", "#f59e0b"), Entry("error", "#ef4444"),
    Entry("info", "#3b82f6"), Entry("border", "#e2e8f0"), Entry("shadow", "rgba(0,0,0,0.1)"),
    Entry("primary_dark", "#60a5fa"), Entry("secondary_dark", "#a78bfa"), Entry("accent_dark", "#fbbf24"),
    Entry("background_dark", "#111827"), Entry("surface_dark", "#1f2937"), Entry("text_dark", "#f9fafb")]

  /** The built-in palette has every required key, dark ones included. */
  lemma DefaultColorsComplete()
    ensures forall k :: k in RequiredColors ==> k in Keys(DefaultColors)
  {
    assert Keys(DefaultColors) == RequiredColors;
  }

  lemma DefaultValuesAreColors()
    ensures forall i :: 0 <= i < |DefaultColors| ==> IsColorValue(DefaultColors[i].value)
  {
    forall i | 0 <= i < |DefaultColors| ensures IsColorValue(DefaultColors[i].value) {
      var v := DefaultColors[i].value;
      if i == 11 {
        assert v[..5] == "rgba(";
      } else {
        HexColorByDigits(v);
      }
    }
  }

  /** The six digits of a hex colour, one by one. */
  lemma HexColorByDigits(v: string)
    requires |v| == 7 && v[0] == '#'
    requires IsHexDigit(v[1]) && IsHexDigit(v[2]) && IsHexDigit(v[3])
    requires IsHexDigit(v[4]) && IsHexDigit(v[5]) && IsHexDigit(v[6])
    ensures IsHexColor(v)
  {
  }

  /** Every value of the built-in palette is a colour, so the palette passes the structure check. */
  lemma DefaultColorsWellFormed()
    ensures forall i :: 0 <= i < |DefaultColors| ==> IsColorValue(DefaultColors[i].value)
    ensures StructureErrors(Hash(DefaultColors)) == []
  {
    DefaultValuesAreColors();
    DefaultColorsComplete();
    StructureAccepted(DefaultColors);
  }

  /** A stored theme. */
  datatype Theme = Theme(id: nat, name: string, isDefault: bool, colors: Colors)

  /** The name rules: present, at most 50 characters, and unused by every other theme. */
  predicate NameOk(t: Theme, others: seq<Theme>) {
    !IsBlank(t.name) && |t.name| <= MaxNameLength && forall o | o in others && o.id != t.id :: o.name != t.name
  }

  /** Every validation: the name rules, colours present, and the structure check. */
  predicate ThemeValid(t: Theme, others: seq<Theme>) {
    NameOk(t, others) && !t.colors.Blank() && StructureErrors(t.colors) == []
  }

  /** How many themes are the default. */
  function DefaultCount(rows: seq<Theme>): (n: nat)
    ensures n <= |rows|
    ensures n == 0 <==> forall i :: 0 <= i < |rows| ==> !rows[i].isDefault
  {
    Seqs.Count(rows, (t: Theme) => t.isDefault)
  }

  /** Every flag cleared (`update_all(is_default: false)`). */
  function NoneDefault(rows: seq<Theme>): (r: seq<Theme>)
    ensures |r| == |rows| && forall i :: 0 <= i < |rows| ==> r[i] == rows[i].(isDefault := false)
  {
    seq(|rows|, i requires 0 <= i < |rows| => rows[i].(isDefault := false))
  }

  /** Exactly one row is flagged, the one at `k`. */
  predicate OnlyDefault(rows: seq<Theme>, k: nat) {
    k < |rows| && forall i :: 0 <= i < |rows| ==> (rows[i].isDefault <==> i == k)
  }

  /** The themes table. */
  class ThemeTable {
    var rows: seq<Theme>

    /** Ids are unique, and at most one theme is the default. */
    ghost predicate Valid()
      reads this
    {
      (forall i, j :: 0 <= i < j < |rows| ==> rows[i].id != rows[j].id)
      && (forall i, j :: 0 <= i < j < |rows| ==> !(rows[i].isDefault && rows[j].isDefault))
    }

    /**
     * `make_default!` as written: `update_all` clears every default flag in the table but not
     * in the loaded theme, so when the theme is already the default, `update!(is_default: true)`
     * finds nothing changed and writes nothing, and `ensure_single_default` does nothing either:
     * the table is left with no default. A save that fails validation leaves none as well.
     */
    method MakeDefaultAsWritten(k: nat) returns (saved: bool)
      requires Valid() && k < |rows|
      modifies this
      ensures Valid()
      ensures saved == ThemeValid(old(rows)[k].(isDefault := true), old(rows))
      ensures saved && !old(rows)[k].isDefault ==>
        rows == NoneDefault(old(rows))[k := old(rows)[k].(isDefault := true)] && OnlyDefault(rows, k)
      ensures !saved || old(rows)[k].isDefault ==> rows == NoneDefault(old(rows)) && DefaultCount(rows) == 0
    {
      var t := rows[k].(isDefault := true);
      var changed := !rows[k].isDefault;
      saved := ThemeValid(t, rows);
      rows := NoneDefault(rows);
      if saved && changed {
        rows := rows[k := t];
      }
    }

    /**
     * `make_default!` as intended: every default flag is cleared, then the theme is saved as the
     * default, whether or not it was the default before. The clearing is not undone when that
     * save fails validation, which leaves no default.
     */
    method MakeDefault(k: nat) returns (saved: bool)
      requires Valid() && k < |rows|
      modifies this
      ensures Valid()
      ensures saved == ThemeValid(old(rows)[k].(isDefault := true), old(rows))
      ensures saved ==> rows == NoneDefault(old(rows))[k := old(rows)[k].(isDefault := true)] && OnlyDefault(rows, k)
      ensures !saved ==> rows == NoneDefault(old(rows)) && DefaultCount(rows) == 0
    {
      var t := rows[k].(isDefault := true);
      saved := ThemeValid(t, rows);
      rows := NoneDefault(rows);
      if saved {
        rows := rows[k := t];
      }
    }

    /**
     * Saving a changed theme: an invalid one is refused; a theme that becomes the default
     * (`ensure_single_default`, when the flag turns on) clears every other theme's flag.
     */
    method Save(k: nat, t: Theme) returns (saved: bool)
      requires Valid() && k < |rows| && t.id == rows[k].id
      modifies this
      ensures Valid()
      ensures saved == ThemeValid(t, old(rows))
      ensures !saved ==> rows == old(rows)
      ensures saved && t.isDefault && !old(rows)[k].isDefault ==> rows == NoneDefault(old(rows))[k := t]
      ensures saved && !(t.isDefault && !old(rows)[k].isDefault) ==> rows == old(rows)[k := t]
      ensures saved && t.isDefault ==> OnlyDefault(rows, k)
    {
      saved := ThemeValid(t, rows);
      if !saved {
        return;
      }
      if t.isDefault && !rows[k].isDefault {
        rows := NoneDefault(rows)[k := t];
      } else {
        rows := rows[k := t];
      }
    }
  }

  /** At most one default means the count of defaults is 0 or 1. */
  lemma {:induction false} AtMostOneDefault(rows: seq<Theme>)
    requires forall i, j :: 0 <= i < j < |rows| ==> !(rows[i].isDefault && rows[j].isDefault)
    ensures DefaultCount(rows) <= 1
  {
    if rows != [] {
      var init := rows[..|rows| - 1];
      AtMostOneDefault(init);
      if rows[|rows| - 1].isDefault {
        assert forall i :: 0 <= i < |init| ==> !init[i].isDefault;
      }
    }
  }
}
