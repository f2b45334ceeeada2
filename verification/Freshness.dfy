/** How old a cached npm artifact says it is: the age computed when the response arrives, carried through
    storing and serving, each step flooring nanoseconds to whole seconds. */
module Freshness {
  import opened Options
  import opened Coordination
  import Text

  const MAX_INT64 := 0x7FFF_FFFF_FFFF_FFFF
  const MAX_UINT32 := 0xFFFF_FFFF

  function Max(a: int, b: int): int {
    if a < b then b else a
  }

  // ---- Cache-Control ----

  predicate Digits(s: string) {
    forall i :: 0 <= i < |s| ==> '0' <= s[i] <= '9'
  }

  function Decimal(s: string): nat
    requires Digits(s)
  {
    if s == "" then 0 else 10 * Decimal(s[..|s| - 1]) + (s[|s| - 1] - '0') as nat
  }

  /** Whole seconds written in digits only, at most 32 bits. */
  function DeltaSeconds(s: string): (age: Option<int>)
    ensures age.Some? <==> s != "" && Digits(s) && Decimal(s) <= MAX_UINT32
    ensures age.Some? ==> age.value == Decimal(s) * SECOND && 0 <= age.value <= MAX_UINT32 * SECOND
  {
    if s == "" || !Digits(s) || Decimal(s) > MAX_UINT32 then None else Some(Decimal(s) * SECOND)
  }

  /** A number in decimal, without and with leading zeros. */
  function Print(n: nat): (s: string)
    ensures s != "" && Digits(s)
  {
    (if n < 10 then "" else Print(n / 10)) + ['0' + (n % 10) as char]
  }

  function Padded(zeros: nat, n: nat): (s: string)
    ensures s != "" && Digits(s)
  {
    seq(zeros, i => '0') + Print(n)
  }

  lemma {:induction false} DecimalPrint(zeros: nat, n: nat)
    ensures Decimal(Padded(zeros, n)) == n
    decreases n
  {
    var s := Padded(zeros, n);
    assert s[|s| - 1] == '0' + (n % 10) as char;
    if n < 10 {
      assert s[..|s| - 1] == seq(zeros, i => '0');
      DecimalZeros(zeros);
    } else {
      assert s[..|s| - 1] == Padded(zeros, n / 10);
      DecimalPrint(zeros, n / 10);
    }
  }

  lemma {:induction false} DecimalZeros(zeros: nat)
    ensures Digits(seq(zeros, i => '0')) && Decimal(seq(zeros, i => '0')) == 0
  {
    if zeros > 0 {
      assert seq(zeros, i => '0')[..zeros - 1] == seq(zeros - 1, i => '0');
      DecimalZeros(zeros - 1);
    }
  }

  /** Every whole number of seconds up to 32 bits is read back, leading zeros or not, and no greater one. */
  lemma DeltaSecondsReads(zeros: nat, n: nat)
    ensures DeltaSeconds(Padded(zeros, n)) == if n <= 4_294_967_295 then Some(n * 1_000_000_000) else None
  {
    DecimalPrint(zeros, n);
  }

  /** One Cache-Control directive, its name in lower case, name and value without surrounding space. */
  datatype Directive = Directive(name: string, value: Option<string>)

  const FLAGS := {"public", "immutable", "must-revalidate", "proxy-revalidate", "no-transform"}
  const AGES := {"max-age", "s-maxage"}

  predicate Understood(d: Directive) {
    if d.name in FLAGS then d.value.None? else d.name in AGES && d.value.Some? && DeltaSeconds(d.value.value).Some?
  }

  /** The directives that leave a response cacheable: five without a value, and two with an age that can be read. */
  lemma UnderstoodIs(d: Directive)
    ensures Understood(d) <==>
      || ((d.name == "public" || d.name == "immutable" || d.name == "must-revalidate" || d.name == "proxy-revalidate"
           || d.name == "no-transform") && d.value.None?)
      || ((d.name == "max-age" || d.name == "s-maxage") && d.value.Some? && DeltaSeconds(d.value.value).Some?)
  {
    hide DeltaSeconds;
  }

  /** Every directive is understood and none gives an age twice. */
  ghost predicate Cacheable(ds: seq<Directive>) {
    && (forall d :: d in ds ==> Understood(d))
    && (forall i, j :: 0 <= i < j < |ds| && ds[i].name in AGES ==> ds[i].name != ds[j].name)
  }

  ghost predicate Gives(ds: seq<Directive>, name: string, age: int) {
    exists d :: d in ds && d.name == name && d.value.Some? && DeltaSeconds(d.value.value) == Some(age)
  }

  ghost predicate Names(ds: seq<Directive>, name: string) {
    exists d :: d in ds && d.name == name
  }

  /** The freshness lifetime of a public response: s-maxage if given, else max-age. */
  ghost predicate FreshFor(ds: seq<Directive>, lifetime: int) {
    && Cacheable(ds) && Names(ds, "public") && lifetime > 0
    && (Gives(ds, "s-maxage", lifetime) || (!Names(ds, "s-maxage") && Gives(ds, "max-age", lifetime)))
  }

  // reading the header

  predicate Quoted(value: string) {
    '"' in value || '\\' in value
  }

  /** One piece between commas: its name in lower case, and its value if it has one. */
  function DirectiveOf(piece: string): Directive {
    var (name, value) := Text.Cut(Text.TrimSpace(piece), '=');
    Directive(Text.ToLower(Text.TrimSpace(name)), if value.None? then None else Some(Text.TrimSpace(value.value)))
  }

  function DirectivesOf(pieces: seq<string>): seq<Directive> {
    seq(|pieces|, i requires 0 <= i < |pieces| => DirectiveOf(pieces[i]))
  }

  /** All the directives of all the header's values. */
  function Directives(values: seq<string>): seq<Directive> {
    if values == [] then []
    else Directives(values[..|values| - 1]) + DirectivesOf(Text.Split(values[|values| - 1], ','))
  }

  /** What the loops know of the directives seen. */
  ghost predicate Tracks(ds: seq<Directive>, public: bool, ages: map<string, int>) {
    && Cacheable(ds) && public == Names(ds, "public") && ages.Keys <= AGES
    && (forall n :: n in AGES ==> (n in ages <==> Names(ds, n)))
    && (forall n :: n in ages ==> Gives(ds, n, ages[n]))
    && (forall n, l :: n in AGES && Gives(ds, n, l) ==> n in ages && ages[n] == l)
  }

  lemma TracksMore(ds: seq<Directive>, d: Directive, public: bool, ages: map<string, int>)
    requires Tracks(ds, public, ages)
    ensures if !Understood(d) || d.name in ages then !Cacheable(ds + [d])
      else if d.name in FLAGS then Tracks(ds + [d], public || d.name == "public", ages)
      else Tracks(ds + [d], public, ages[d.name := DeltaSeconds(d.value.value).value])
  {
    var more := ds + [d];
    hide Cacheable, Names, Gives, DeltaSeconds;
    assert more[..|ds|] == ds && more[..|ds| + 1] == more && more[|ds|] == d;
    Prefixes(more, |ds|);
    if !Understood(d) || d.name in ages {
      assert d.name in ages ==> d.name in AGES && Names(ds, d.name);
    } else if d.name in FLAGS {
      TracksFlag(ds, d, public, ages);
    } else {
      var age := DeltaSeconds(d.value.value);
      assert age == Some(age.value);
      forall n, l ensures Gives(more, n, l) <==> Gives(ds, n, l) || (d.name == n && age.value == l) {
        assert Gives(more, n, l) <==> Gives(ds, n, l) || (d.name == n && age == Some(l));
      }
      TracksAge(ds, d, public, ages, age.value);
    }
  }

  lemma TracksFlag(ds: seq<Directive>, d: Directive, public: bool, ages: map<string, int>)
    requires Tracks(ds, public, ages) && Cacheable(ds + [d]) && d.name in FLAGS && d.value.None?
    requires forall n :: Names(ds + [d], n) <==> Names(ds, n) || d.name == n
    requires forall n, l :: Gives(ds + [d], n, l) <==> Gives(ds, n, l)
    ensures Tracks(ds + [d], public || d.name == "public", ages)
  {
    hide Cacheable, Names, Gives;
  }

  lemma TracksAge(ds: seq<Directive>, d: Directive, public: bool, ages: map<string, int>, age: int)
    requires Tracks(ds, public, ages) && Cacheable(ds + [d]) && d.name in AGES && d.name !in ages
    requires forall n :: Names(ds + [d], n) <==> Names(ds, n) || d.name == n
    requires forall n, l :: Gives(ds + [d], n, l) <==> Gives(ds, n, l) || (d.name == n && age == l)
    ensures Tracks(ds + [d], public, ages[d.name := age])
  {
    hide Cacheable, Names, Gives;
  }

  lemma CacheablePrefix(ds: seq<Directive>, all: seq<Directive>)
    requires ds <= all && Cacheable(all)
    ensures Cacheable(ds)
  {
    assert forall i :: 0 <= i < |ds| ==> ds[i] == all[i] && all[i] in all;
  }

  lemma {:induction false} DirectivesPrefix(values: seq<string>, i: nat)
    requires i <= |values|
    ensures Directives(values[..i]) <= Directives(values)
    decreases |values| - i
  {
    if i < |values| {
      DirectivesPrefix(values, i + 1);
      assert values[..i + 1][..i] == values[..i];
    } else {
      assert values[..i] == values;
    }
  }

  /** The header's lifetime, exactly when no value is quoted, every directive is understood, none repeats an age, and the
      response is public with a positive age. */
  method FreshnessLifetime(values: seq<string>) returns (lifetime: Option<int>)
    ensures lifetime.Some? ==>
      (forall v :: v in values ==> '"' !in v && '\\' !in v) && FreshFor(Directives(values), lifetime.value)
    ensures lifetime.None? ==>
      (exists v :: v in values && ('"' in v || '\\' in v)) || forall l :: !FreshFor(Directives(values), l)
  {
    hide Tracks, Cacheable, Understood;
    var public := false;
    var ages: map<string, int> := map[];
    NothingTracked();
    for i := 0 to |values|
      invariant forall v :: v in values[..i] ==> !Quoted(v)
      invariant Tracks(Directives(values[..i]), public, ages)
    {
      var value := values[i];
      assert values[..i + 1] == values[..i] + [value];
      if Quoted(value) {
        assert value in values;
        return None;
      }
      DirectivesPrefix(values, i + 1);
      var ok;
      ok, public, ages := ReadValue(Directives(values[..i]), value, public, ages);
      assert Directives(values[..i + 1]) == Directives(values[..i]) + DirectivesOf(Text.Split(value, ','));
      if !ok {
        NotFresh(Directives(values[..i + 1]), Directives(values));
        return None;
      }
    }
    assert values[..|values|] == values;
    var chosen := if "s-maxage" in ages then ages["s-maxage"] else if "max-age" in ages then ages["max-age"] else 0;
    Chosen(Directives(values), public, ages, chosen);
    lifetime := if public && chosen > 0 then Some(chosen) else None;
  }

  /** A directive is read from its name in any case, with any space around it and its value. */
  lemma ReadsDirective(space: seq<string>, spelled: string, name: string, value: string)
    requires |space| == 4 && forall i :: 0 <= i < 4 ==> Text.AllSpace(space[i])
    requires Text.LowerCase(name) && Text.Spells(spelled, name) && spelled != "" && '=' !in spelled && '=' !in space[1]
    requires !Text.IsSpace(spelled[0]) && !Text.IsSpace(spelled[|spelled| - 1])
    requires value != "" && !Text.IsSpace(value[0]) && !Text.IsSpace(value[|value| - 1])
    ensures DirectiveOf(space[0] + spelled + space[1] + "=" + space[2] + value + space[3]) == Directive(name, Some(value))
  {
    hide Text.IsSpace, Text.TrimSpace, Text.ToLower;
    var inner := spelled + space[1] + "=" + space[2] + value;
    var piece := space[0] + spelled + space[1] + "=" + space[2] + value + space[3];
    assert piece == space[0] + inner + space[3];
    Text.TrimSpaceOf(space[0], inner, space[3]);
    CutsAt(spelled + space[1], space[2] + value);
    assert inner == spelled + space[1] + ['='] + (space[2] + value);
    Text.TrimSpaceOf("", spelled, space[1]);
    assert "" + spelled + space[1] == spelled + space[1];
    Text.TrimSpaceOf(space[2], value, "");
    assert space[2] + value + "" == space[2] + value;
    Text.LowerReads(spelled, name);
  }

  lemma CutsAt(before: string, after: string)
    requires '=' !in before
    ensures Text.Cut(before + ['='] + after, '=') == (before, Some(after))
  {
    hide Text.Cut;
    var s := before + ['='] + after;
    assert s[|before|] == '=';
    var cut := Text.Cut(s, '=');
    assert cut.1.Some?;
    assert s == cut.0 + ['='] + cut.1.value;
    SameCut(before, after, cut.0, cut.1.value);
    assert cut == (cut.0, cut.1);
  }

  lemma SameCut(before: string, after: string, x: string, y: string)
    requires before + ['='] + after == x + ['='] + y && '=' !in before && '=' !in x
    ensures x == before && y == after
  {
    var s := before + ['='] + after;
    assert s[|before|] == '=' && s[|x|] == '=';
    assert |x| == |before|;
    assert x == s[..|x|] && y == s[|x| + 1..] && before == s[..|before|] && after == s[|before| + 1..];
  }

  /** A name alone. */
  lemma ReadsFlag(left: string, spelled: string, right: string, name: string)
    requires Text.AllSpace(left) && Text.AllSpace(right) && Text.LowerCase(name) && Text.Spells(spelled, name)
    requires spelled != "" && '=' !in spelled && !Text.IsSpace(spelled[0]) && !Text.IsSpace(spelled[|spelled| - 1])
    ensures DirectiveOf(left + spelled + right) == Directive(name, None)
  {
    hide Text.IsSpace, Text.TrimSpace, Text.ToLower;
    Text.TrimSpaceOf(left, spelled, right);
    var (before, after) := Text.Cut(spelled, '=');
    assert before == spelled;
    Text.TrimSpaceOf("", spelled, "");
    assert "" + spelled + "" == spelled;
    Text.LowerReads(spelled, name);
  }

  /** The header of a public response with a maximum age, in the usual spelling. */
  function PublicFor(zeros: nat, n: nat): string {
    "public, max-age=" + Padded(zeros, n)
  }

  /** "public, max-age=n" is fresh for n seconds, for every positive n of at most 32 bits, and for no other time. */
  lemma PublicMaxAge(zeros: nat, n: nat, lifetime: int)
    ensures !Quoted(PublicFor(zeros, n))
    ensures FreshFor(Directives([PublicFor(zeros, n)]), lifetime) <==> 0 < n <= MAX_UINT32 && lifetime == n * SECOND
  {
    var digits := Padded(zeros, n);
    var public, age := Directive("public", None), Directive("max-age", Some(digits));
    PublicDirectives(zeros, n);
    DeltaSecondsReads(zeros, n);
    hide Directives, DeltaSeconds, Padded;
    var ds := Directives([PublicFor(zeros, n)]);
    assert ds == [public, age];
    assert ds[0] == public && ds[1] == age;
    assert Names(ds, "public");
    assert !Names(ds, "s-maxage");
    if FreshFor(ds, lifetime) {
      assert Understood(age);
    }
    if 0 < n <= MAX_UINT32 && lifetime == n * SECOND {
      assert Understood(public) && Understood(age);
      assert Gives(ds, "max-age", lifetime);
    }
  }

  lemma PublicDirectives(zeros: nat, n: nat)
    ensures Directives([PublicFor(zeros, n)]) == [Directive("public", None), Directive("max-age", Some(Padded(zeros, n)))]
    ensures !Quoted(PublicFor(zeros, n))
  {
    hide Padded, Text.Split, DirectiveOf;
    var digits := Padded(zeros, n);
    var second := " max-age=" + digits;
    PublicPieces(digits);
    PublicReads(digits);
    ghost var none: seq<string> := [];
    assert [PublicFor(zeros, n)][..0] == none;
    assert Directives(none) == [];
    assert DirectivesOf(["public", second]) == [DirectiveOf("public"), DirectiveOf(second)];
  }

  lemma PublicPieces(digits: string)
    requires Digits(digits)
    ensures Text.Split("public, max-age=" + digits, ',') == ["public", " max-age=" + digits]
    ensures !Quoted("public, max-age=" + digits)
  {
    hide Text.Split;
    var second := " max-age=" + digits;
    assert "public, max-age=" + digits == "public" + [','] + second;
    SecondHasNoComma(digits);
    Text.SplitFirst("public", second, ',');
    Text.SplitPiece(second, ',');
  }

  lemma PublicReads(digits: string)
    requires Digits(digits) && digits != ""
    ensures DirectiveOf("public") == Directive("public", None)
    ensures DirectiveOf(" max-age=" + digits) == Directive("max-age", Some(digits))
  {
    hide Text.IsSpace, DirectiveOf, Digits, Text.AllSpace, Text.LowerCase;
    NoSpaces(digits);
    PlainNames();
    ReadsFlag("", "public", "", "public");
    assert "" + "public" + "" == "public";
    var space := [" ", "", "", ""];
    assert forall i :: 0 <= i < 4 ==> Text.AllSpace(space[i]);
    ReadsDirective(space, "max-age", "max-age", digits);
    assert " " + "max-age" + "" + "=" + "" + digits + "" == " max-age=" + digits;
  }

  lemma SecondHasNoComma(digits: string)
    requires Digits(digits)
    ensures ',' !in " max-age=" + digits
  {
  }

  lemma NoSpaces(digits: string)
    requires Digits(digits) && digits != ""
    ensures !Text.IsSpace(digits[0]) && !Text.IsSpace(digits[|digits| - 1])
  {
  }

  lemma PlainNames()
    ensures Text.LowerCase("public") && Text.LowerCase("max-age") && Text.AllSpace("") && Text.AllSpace(" ")
    ensures !Text.IsSpace('p') && !Text.IsSpace('c') && !Text.IsSpace('m') && !Text.IsSpace('e')
  {
  }

  lemma NothingTracked()
    ensures Directives([]) == [] && Tracks([], false, map[])
  {
  }

  lemma NotFresh(ds: seq<Directive>, all: seq<Directive>)
    requires ds <= all && !Cacheable(ds)
    ensures forall l :: !FreshFor(all, l)
  {
    if Cacheable(all) {
      CacheablePrefix(ds, all);
    }
  }

  lemma Chosen(ds: seq<Directive>, public: bool, ages: map<string, int>, chosen: int)
    requires Tracks(ds, public, ages)
    requires chosen == if "s-maxage" in ages then ages["s-maxage"] else if "max-age" in ages then ages["max-age"] else 0
    ensures public && chosen > 0 ==> FreshFor(ds, chosen)
    ensures !(public && chosen > 0) ==> forall l :: !FreshFor(ds, l)
  {
    hide Cacheable, Gives, Names;
    assert "s-maxage" in AGES && "max-age" in AGES;
  }

  /** Reads the directives of one value. */
  method ReadValue(ghost ds: seq<Directive>, value: string, public0: bool, ages0: map<string, int>)
      returns (ok: bool, public: bool, ages: map<string, int>)
    requires Tracks(ds, public0, ages0)
    ensures var more := ds + DirectivesOf(Text.Split(value, ','));
      if ok then Tracks(more, public, ages) else !Cacheable(more)
  {
    hide Tracks, Cacheable, Text.Split;
    public, ages := public0, ages0;
    var pieces := Text.Split(value, ',');
    ghost var all := DirectivesOf(pieces);
    assert ds + all[..0] == ds;
    for j := 0 to |pieces|
      invariant Tracks(ds + all[..j], public, ages)
    {
      var d := DirectiveOf(pieces[j]);
      TracksMore(ds + all[..j], d, public, ages);
      assert ds + all[..j] + [d] == ds + all[..j + 1];
      if !Understood(d) || d.name in ages {
        if Cacheable(ds + all) {
          CacheablePrefix(ds + all[..j + 1], ds + all);
        }
        return false, public, ages;
      }
      if d.name in FLAGS {
        public := public || d.name == "public";
      } else {
        ages := ages[d.name := DeltaSeconds(d.value.value).value];
      }
    }
    assert all[..|pieces|] == all;
    ok := true;
  }

  /** How each property of a list of directives grows by one directive. */
  lemma Prefixes(ds: seq<Directive>, i: nat)
    requires i < |ds|
    ensures forall n :: Names(ds[..i + 1], n) <==> Names(ds[..i], n) || ds[i].name == n
    ensures forall n, l :: Gives(ds[..i + 1], n, l) <==>
      Gives(ds[..i], n, l) || (ds[i].name == n && ds[i].value.Some? && DeltaSeconds(ds[i].value.value) == Some(l))
    ensures Cacheable(ds[..i + 1]) <==>
      Cacheable(ds[..i]) && Understood(ds[i]) && (ds[i].name in AGES ==> !Names(ds[..i], ds[i].name))
    ensures Cacheable(ds) ==> Cacheable(ds[..i + 1])
  {
    var less, more := ds[..i], ds[..i + 1];
    assert more == less + [ds[i]];
    assert forall d :: d in more <==> d in less || d == ds[i];
    forall n, l ensures Gives(more, n, l) <==>
      Gives(less, n, l) || (ds[i].name == n && ds[i].value.Some? && DeltaSeconds(ds[i].value.value) == Some(l))
    {
      if Gives(less, n, l) {
        var d :| d in less && d.name == n && d.value.Some? && DeltaSeconds(d.value.value) == Some(l);
        assert d in more;
      }
      assert ds[i] in more;
    }
    if Cacheable(less) && Understood(ds[i]) && (ds[i].name in AGES ==> !Names(less, ds[i].name)) {
      forall a, b | 0 <= a < b < |more| && more[a].name in AGES ensures more[a].name != more[b].name {
        assert more[a] in less;
      }
    }
    if Cacheable(more) {
      forall a, b | 0 <= a < b < |less| && less[a].name in AGES ensures less[a].name != less[b].name {
        assert less[a] == more[a] && less[b] == more[b];
      }
      assert more[i] == ds[i];
      forall a | 0 <= a < |less| && ds[i].name in AGES ensures less[a].name != ds[i].name {
        assert less[a] == more[a];
      }
    }
  }

  // ---- arrival ----

  /** What an npm response says about its age: the Age and Date values, a Date in nanoseconds if it parses. */
  datatype Stamp = Stamp(ages: seq<string>, dates: seq<Option<int>>)

  /** The corrected age on arrival, or None when the response must not be stored. */
  function ArrivalAge(stamp: Stamp, lifetime: int, requested: int, received: int): Option<int> {
    if |stamp.ages| > 1 || |stamp.dates| > 1 then None
    else if |stamp.ages| == 1 && DeltaSeconds(Text.TrimSpace(stamp.ages[0])).None? then None
    else if |stamp.dates| == 1 && stamp.dates[0].None? then None
    else
      var said := if |stamp.ages| == 1 then DeltaSeconds(Text.TrimSpace(stamp.ages[0])).value else 0;
      var delayed := said + Max(received - requested, 0);
      var age := if |stamp.dates| == 1 then Max(delayed, received - stamp.dates[0].value) else delayed;
      if age >= lifetime then None else Some(age)
  }

  // ---- ageing ----

  /** The Age and Date headers an entry carries, Age in seconds. */
  datatype Headers = Headers(age: int, date: Option<int>)

  /** Ages headers stored at one time to another. */
  function Aged(h: Headers, stored: int, now: int): Headers {
    var said := Max(h.age, 0);
    var age :=
      if h.date.Some? && stored > h.date.value then Max(said, (stored - h.date.value) / SECOND) else said;
    if now > stored then
      var resident := (now - stored) / SECOND;
      h.(age := if age > MAX_INT64 - resident then MAX_INT64 else age + resident)
    else h.(age := age)
  }

  datatype Entry = Entry(headers: Headers, stored: int, expires: int)

  function Date(stamp: Stamp): Option<int> {
    if |stamp.dates| == 1 then stamp.dates[0] else None
  }

  /** The entry stored for an npm response, or None when it has expired by then. */
  function Store(stamp: Stamp, age: int, lifetime: int, received: int, stored: int, ttl: int): Option<Entry> {
    var freshUntil := received + lifetime - age;
    if freshUntil <= stored then None
    else
      var aged := Aged(Headers(age / SECOND, Date(stamp)), received, stored);
      var dated := if aged.date.None? then aged.(date := Some(Unix(stored) * SECOND)) else aged;
      Some(Entry(dated, stored, if freshUntil < stored + ttl then freshUntil else stored + ttl))
  }

  /** The Age header of a hit. */
  function HitAge(entry: Entry, now: int): int {
    Aged(entry.headers, entry.stored, now).age
  }

  // ---- section 4.2.3 of RFC 9111, in nanoseconds ----

  function AgeValue(stamp: Stamp): int {
    if |stamp.ages| == 1 && DeltaSeconds(Text.TrimSpace(stamp.ages[0])).Some? then DeltaSeconds(Text.TrimSpace(stamp.ages[0])).value else 0
  }

  function CurrentAge(stamp: Stamp, requested: int, received: int, now: int): int {
    var apparentAge := if Date(stamp).Some? then Max(0, received - Date(stamp).value) else 0;
    var correctedAge := AgeValue(stamp) + (received - requested);
    Max(apparentAge, correctedAge) + (now - received)
  }

  /** At most one Age and one Date, and they can be read. */
  ghost predicate Stamped(stamp: Stamp) {
    && |stamp.ages| <= 1 && |stamp.dates| <= 1
    && (|stamp.ages| == 1 ==> DeltaSeconds(Text.TrimSpace(stamp.ages[0])).Some?)
    && (|stamp.dates| == 1 ==> stamp.dates[0].Some?)
  }

  /** A response has an age on arrival exactly when its stamp can be read and the age of section 4.2.3 of RFC 9111, taken
      at receipt and with no negative delay, is below its lifetime; and then it is that age. */
  lemma ArrivesExactly(stamp: Stamp, lifetime: int, requested: int, received: int, age: int)
    ensures ArrivalAge(stamp, lifetime, requested, received) == Some(age) <==>
      var sent := if requested < received then requested else received;
      Stamped(stamp) && age == CurrentAge(stamp, sent, received, received) && age < lifetime
  {
    hide DeltaSeconds, Text.TrimSpace;
  }

  /** An entry is stored exactly while the response is still fresh, and expires when its time to live or its freshness
      ends, whichever comes first; it keeps the response's Date, or gets the second it was stored in. */
  lemma StoresExactly(stamp: Stamp, age: int, lifetime: int, received: int, stored: int, ttl: int)
    ensures var entry := Store(stamp, age, lifetime, received, stored, ttl);
      && (entry.Some? <==> stored < received + lifetime - age)
      && (entry.Some? ==>
            && entry.value.stored == stored
            && entry.value.expires <= stored + ttl && entry.value.expires <= received + lifetime - age
            && (entry.value.expires == stored + ttl || entry.value.expires == received + lifetime - age)
            && entry.value.headers.date.Some?
            && (Date(stamp).Some? ==> entry.value.headers.date == Date(stamp))
            && (Date(stamp).None? ==>
                  var date := entry.value.headers.date.value; date % SECOND == 0 && date <= stored < date + SECOND))
  {
  }

  /** The age an entry shows is the larger of what its headers said and what its Date made of it when it was stored, both
      in whole seconds, and the whole seconds since; unless that passes 64 bits. */
  lemma AgedIs(h: Headers, stored: int, now: int)
    requires stored <= now
    ensures var said, apparent, resident := h.age, if h.date.Some? then (stored - h.date.value) / SECOND else 0,
                                            (now - stored) / SECOND;
      var age := Aged(h, stored, now).age;
      age < MAX_INT64 ==>
        && age - resident >= 0 && age - resident >= said && age - resident >= apparent
        && (age - resident == 0 || age - resident == said || age - resident == apparent)
  {
  }

  /** An age that fits 64 bits is still one after any time: it saturates instead of wrapping. */
  lemma AgedFits(h: Headers, stored: int, now: int)
    requires h.age < 0x8000_0000_0000_0000 && now - stored < 0x8000_0000_0000_0000
    requires h.date.Some? ==> stored - h.date.value < 0x8000_0000_0000_0000
    ensures var age := Aged(h, stored, now).age; 0 <= age < 0x8000_0000_0000_0000 && age >= h.age
  {
  }

  /** Floors add up to less than the floor of the sum, by less than one each. */
  lemma Floors(a: int, b: int)
    requires a >= 0 && b >= 0
    ensures a / SECOND + b / SECOND <= (a + b) / SECOND <= a / SECOND + b / SECOND + 1
    ensures (a / SECOND) * SECOND <= a < (a / SECOND + 1) * SECOND
  {
  }

  /** The Age sent on a hit never exceeds the current age, is less than three seconds below it, and stays
      under the freshness lifetime; the entry outlives neither its time to live nor its freshness. */
  lemma HitAgeIsCurrent(stamp: Stamp, lifetime: int, requested: int, received: int, stored: int, ttl: int, now: int,
                        age: int, entry: Entry)
    requires lifetime <= MAX_UINT32 * SECOND && requested <= received <= stored <= now
    requires ArrivalAge(stamp, lifetime, requested, received) == Some(age)
    requires Store(stamp, age, lifetime, received, stored, ttl) == Some(entry) && now < entry.expires
    ensures var current := CurrentAge(stamp, requested, received, now);
      && HitAge(entry, now) * SECOND <= current < HitAge(entry, now) * SECOND + 3 * SECOND
      && HitAge(entry, now) * SECOND < lifetime
    ensures entry.expires <= stored + ttl && entry.expires <= received + lifetime - age
    ensures entry.expires == stored + ttl || entry.expires == received + lifetime - age
  {
    assert age == CurrentAge(stamp, requested, received, received);
    StoredAge(stamp, age, lifetime, received, stored, ttl, entry);
    var kept, date := entry.headers.age, entry.headers.date;
    Floors(stored - received + age, now - stored);
    Floors(now - stored, 0);
    if date.Some? && stored > date.value {
      Floors(stored - date.value, 0);
    }
  }

  /** What the stored headers say is the age at storing, rounded down at most twice. */
  lemma StoredAge(stamp: Stamp, age: int, lifetime: int, received: int, stored: int, ttl: int, entry: Entry)
    requires 0 <= age < lifetime <= MAX_UINT32 * SECOND && received <= stored
    requires Date(stamp).Some? ==> received - Date(stamp).value <= age
    requires Store(stamp, age, lifetime, received, stored, ttl) == Some(entry)
    ensures 0 <= entry.headers.age && entry.headers.age * SECOND <= age + stored - received
    ensures age + stored - received < entry.headers.age * SECOND + 2 * SECOND
    ensures entry.headers.date.Some?
    ensures stored - entry.headers.date.value <= age + stored - received || entry.headers.date.value > stored - SECOND
  {
    Floors(age, stored - received);
    if Date(stamp).Some? && received > Date(stamp).value {
      Floors(received - Date(stamp).value, age - (received - Date(stamp).value));
    }
  }
}
