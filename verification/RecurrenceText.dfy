/** Reading a recurrence rule undoes writing one, and the case of its letters never matters. */
module RecurrenceText {
  import opened Basics
  import opened Text
  import opened Recurrence

  // ----- Writing -----

  function Decimal(n: nat): string {
    if n < 10 then [('0' as int + n) as char] else Decimal(n / 10) + [('0' as int + n % 10) as char]
  }

  function Signed(i: int): string {
    if i < 0 then "-" + Decimal(-i) else Decimal(i)
  }

  function Join(pieces: seq<string>, sep: char): string {
    if pieces == [] then "" else if |pieces| == 1 then pieces[0] else pieces[0] + [sep] + Join(pieces[1..], sep)
  }

  const WEEKDAYS: seq<string> := ["MO", "TU", "WE", "TH", "FR", "SA", "SU"]

  function Numbers(values: seq<int>): (tokens: seq<string>)
    ensures |tokens| == |values| && forall i :: 0 <= i < |values| ==> tokens[i] == Signed(values[i])
  {
    seq(|values|, i requires 0 <= i < |values| => Signed(values[i]))
  }

  function Names(days: seq<int>): (tokens: seq<string>)
    requires forall i :: 0 <= i < |days| ==> 0 <= days[i] < 7
    ensures |tokens| == |days| && forall i :: 0 <= i < |days| ==> tokens[i] == WEEKDAYS[days[i]]
  {
    seq(|days|, i requires 0 <= i < |days| => WEEKDAYS[days[i]])
  }

  /** One part of a rule, left out when there is nothing to say. */
  function Part(key: string, tokens: seq<string>): seq<string> {
    if tokens == [] then [] else [key + "=" + Join(tokens, ',')]
  }

  /** What can be written: numbers within their width, and a frequency in capitals. */
  predicate Writable(r: Rule) {
    && Plain(r.frequency) && ';' !in r.frequency
    && 1 <= r.interval <= 0x7FFF_FFFF_FFFF_FFFF
    && (r.count.Some? ==> 0 <= r.count.value <= 0xFFFF_FFFF_FFFF_FFFF)
    && (forall i :: 0 <= i < |r.byDay| ==> 0 <= r.byDay[i] < 7)
    && (forall i :: 0 <= i < |r.byMonthDay| ==> -0x8000_0000 <= r.byMonthDay[i] <= 0x7FFF_FFFF)
    && (forall i :: 0 <= i < |r.byMonth| ==> -0x8000_0000 <= r.byMonth[i] <= 0x7FFF_FFFF)
  }

  function Written(r: Rule): string
    requires Writable(r)
  {
    Join(["FREQ=" + r.frequency, "INTERVAL=" + Decimal(r.interval)]
         + Part("COUNT", if r.count.Some? then [Decimal(r.count.value)] else [])
         + Part("BYDAY", Names(r.byDay)) + Part("BYMONTHDAY", Numbers(r.byMonthDay))
         + Part("BYMONTH", Numbers(r.byMonth)), ';')
  }

  // ----- Characters -----

  /** No small letter. */
  predicate Plain(s: string) {
    forall i :: 0 <= i < |s| ==> !('a' <= s[i] <= 'z')
  }

  lemma PlainStays(s: string)
    requires Plain(s)
    ensures UpperAll(s) == s
  {
  }

  lemma {:induction false} DecimalFacts(n: nat)
    ensures Decimal(n) != "" && forall i :: 0 <= i < |Decimal(n)| ==> '0' <= Decimal(n)[i] <= '9'
    ensures DigitsValue(Decimal(n)) == Some(n)
  {
    if n < 10 {
    } else {
      DecimalFacts(n / 10);
      var s := Decimal(n);
      assert s[..|s| - 1] == Decimal(n / 10);
    }
  }

  lemma SignedIsRead(i: int, limit: nat)
    requires i <= limit && 0 <= i + limit + 1
    ensures ParseInt(Signed(i), limit) == Some(i)
  {
    hide DigitsValue;
    if i < 0 {
      DecimalFacts(-i);
      assert Signed(i)[1..] == Decimal(-i);
      hide Decimal;
    } else {
      DecimalFacts(i);
      hide Decimal;
      assert Signed(i)[0] != '-' && Signed(i)[0] != '+';
    }
  }

  lemma SignedIsPlain(i: int)
    ensures Plain(Signed(i)) && ';' !in Signed(i) && ',' !in Signed(i)
    ensures Trim(Signed(i)) == Signed(i)
  {
    hide Trim, Plain, Decimal, DigitsValue;
    if i < 0 {
      DecimalFacts(-i);
      DigitsArePlain("-" + Decimal(-i));
    } else {
      DecimalFacts(i);
      DigitsArePlain(Decimal(i));
    }
  }

  lemma DigitsArePlain(s: string)
    requires s != "" && forall i :: 0 <= i < |s| ==> s[i] == '-' || '0' <= s[i] <= '9'
    ensures Plain(s) && ';' !in s && ',' !in s && Trim(s) == s
  {
    hide Trim;
    NothingToTrim(s);
  }

  lemma SignedFacts(i: int, limit: nat)
    requires i <= limit && 0 <= i + limit + 1
    ensures ParseInt(Signed(i), limit) == Some(i)
    ensures Plain(Signed(i)) && ';' !in Signed(i) && ',' !in Signed(i)
    ensures Trim(Signed(i)) == Signed(i)
  {
    hide ParseInt, Signed, Plain, Trim;
    SignedIsRead(i, limit);
    SignedIsPlain(i);
  }

  lemma NamesAreRead(d: int)
    requires 0 <= d < 7
    ensures WeekdayCode(WEEKDAYS[d]) == Some(d)
    ensures Plain(WEEKDAYS[d]) && ';' !in WEEKDAYS[d] && ',' !in WEEKDAYS[d]
  {
    NothingToTrim(WEEKDAYS[d]);
  }

  // ----- Pieces -----

  lemma IndexIs(s: string, c: char, k: nat)
    requires k < |s| && s[k] == c && forall j :: 0 <= j < k ==> s[j] != c
    ensures IndexOf(s, c) == k
  {
  }

  lemma CutAtFirst(first: string, rest: string, sep: char)
    requires sep !in first
    ensures Split(first + [sep] + rest, sep) == [first] + Split(rest, sep)
  {
    var s, k := first + [sep] + rest, |first|;
    assert forall j :: 0 <= j < k ==> s[j] == first[j] && first[j] in first;
    IndexIs(s, sep, k);
    assert s[..k] == first && s[k + 1..] == rest;
  }

  lemma NothingToCut(s: string, sep: char)
    requires sep !in s
    ensures Split(s, sep) == [s]
  {
    assert IndexOf(s, sep) == |s|;
  }

  lemma {:induction false} SplitUndoesJoin(pieces: seq<string>, sep: char)
    requires pieces != [] && forall p :: p in pieces ==> sep !in p
    ensures Split(Join(pieces, sep), sep) == pieces
  {
    if |pieces| == 1 {
      NothingToCut(pieces[0], sep);
    } else {
      hide Split;
      SplitUndoesJoin(pieces[1..], sep);
      CutAtFirst(pieces[0], Join(pieces[1..], sep), sep);
    }
  }

  lemma PlainTogether(a: string, b: string, sep: char, other: char)
    requires Plain(a) && Plain(b) && other !in a && other !in b && sep != other && !('a' <= sep <= 'z')
    ensures Plain(a + [sep] + b) && other !in a + [sep] + b
  {
  }

  lemma {:induction false} JoinFacts(pieces: seq<string>, sep: char, other: char)
    requires sep != other && !('a' <= sep <= 'z')
    requires forall p :: p in pieces ==> Plain(p) && other !in p
    ensures Plain(Join(pieces, sep)) && other !in Join(pieces, sep)
  {
    if |pieces| > 1 {
      hide Plain;
      JoinFacts(pieces[1..], sep, other);
      PlainTogether(pieces[0], Join(pieces[1..], sep), sep, other);
    }
  }

  /** One more part is one more entry. */
  lemma PartIsAdded(pieces: seq<string>, key: string, value: string)
    requires '=' !in key && Plain(key) && Plain(value)
    ensures PartsOf(pieces + [key + "=" + value]) == PartsOf(pieces)[key := value]
  {
    var piece := key + "=" + value;
    var all := pieces + [piece];
    assert all[..|all| - 1] == pieces && all[|all| - 1] == piece;
    assert forall j :: 0 <= j < |key| ==> piece[j] == key[j] && key[j] in key;
    IndexIs(piece, '=', |key|);
    assert piece[..|key|] == key && piece[|key| + 1..] == value;
    PlainStays(key);
    PlainStays(value);
  }

  lemma ListIsAdded(pieces: seq<string>, key: string, tokens: seq<string>)
    requires '=' !in key && Plain(key) && forall t :: t in tokens ==> Plain(t) && ';' !in t
    ensures PartsOf(pieces + Part(key, tokens)) ==
              if tokens == [] then PartsOf(pieces) else PartsOf(pieces)[key := Join(tokens, ',')]
  {
    if tokens == [] {
      assert pieces + Part(key, tokens) == pieces;
    } else {
      JoinFacts(tokens, ',', ';');
      PartIsAdded(pieces, key, Join(tokens, ','));
    }
  }

  // ----- Reading back -----

  /** The entries that writing a rule makes. */
  function EntriesOf(r: Rule): map<string, string>
    requires Writable(r)
  {
    var base := map["FREQ" := r.frequency, "INTERVAL" := Decimal(r.interval)];
    var counted := if r.count.Some? then base["COUNT" := Decimal(r.count.value)] else base;
    var days := if r.byDay == [] then counted else counted["BYDAY" := Join(Names(r.byDay), ',')];
    var monthDays := if r.byMonthDay == [] then days else days["BYMONTHDAY" := Join(Numbers(r.byMonthDay), ',')];
    if r.byMonth == [] then monthDays else monthDays["BYMONTH" := Join(Numbers(r.byMonth), ',')]
  }

  lemma TokensArePlain(r: Rule)
    requires Writable(r)
    ensures Plain(Decimal(r.interval)) && ';' !in Decimal(r.interval)
    ensures r.count.Some? ==> Plain(Decimal(r.count.value)) && ';' !in Decimal(r.count.value)
    ensures forall t :: t in Names(r.byDay) || t in Numbers(r.byMonthDay) || t in Numbers(r.byMonth) ==>
              Plain(t) && ';' !in t && ',' !in t
  {
    DecimalFacts(r.interval);
    if r.count.Some? {
      DecimalFacts(r.count.value);
    }
    forall t | t in Names(r.byDay) ensures Plain(t) && ';' !in t && ',' !in t {
      var i :| 0 <= i < |r.byDay| && Names(r.byDay)[i] == t;
      NamesAreRead(r.byDay[i]);
    }
    forall t | t in Numbers(r.byMonthDay) ensures Plain(t) && ';' !in t && ',' !in t {
      var i :| 0 <= i < |r.byMonthDay| && Numbers(r.byMonthDay)[i] == t;
      SignedFacts(r.byMonthDay[i], 0x7FFF_FFFF);
    }
    forall t | t in Numbers(r.byMonth) ensures Plain(t) && ';' !in t && ',' !in t {
      var i :| 0 <= i < |r.byMonth| && Numbers(r.byMonth)[i] == t;
      SignedFacts(r.byMonth[i], 0x7FFF_FFFF);
    }
  }

  lemma EntriesAreRead(r: Rule)
    requires Writable(r)
    ensures PartsOf(Split(Written(r), ';')) == EntriesOf(r)
  {
    hide PartsOf, Part, Split, Plain, Join, Decimal;
    TokensArePlain(r);
    var first := ["FREQ=" + r.frequency];
    var base := first + ["INTERVAL=" + Decimal(r.interval)];
    assert base == ["FREQ=" + r.frequency, "INTERVAL=" + Decimal(r.interval)];
    var counted := base + Part("COUNT", if r.count.Some? then [Decimal(r.count.value)] else []);
    var days := counted + Part("BYDAY", Names(r.byDay));
    var monthDays := days + Part("BYMONTHDAY", Numbers(r.byMonthDay));
    var all := monthDays + Part("BYMONTH", Numbers(r.byMonth));
    BaseIsRead(r);
    KeysArePlain();
    ListIsAdded(base, "COUNT", if r.count.Some? then [Decimal(r.count.value)] else []);
    ListIsAdded(counted, "BYDAY", Names(r.byDay));
    ListIsAdded(days, "BYMONTHDAY", Numbers(r.byMonthDay));
    ListIsAdded(monthDays, "BYMONTH", Numbers(r.byMonth));
    JoinOfOne(if r.count.Some? then Decimal(r.count.value) else "");
    PiecesHaveNoSeparator(r, all);
    SplitUndoesJoin(all, ';');
    assert Written(r) == Join(all, ';');
  }

  lemma JoinOfOne(s: string)
    ensures Join([s], ',') == s
  {
  }

  lemma KeysArePlain()
    ensures forall key :: key in {"FREQ", "INTERVAL", "COUNT", "BYDAY", "BYMONTHDAY", "BYMONTH"} ==>
              Plain(key) && '=' !in key && ';' !in key
  {
  }

  lemma BaseIsRead(r: Rule)
    requires Writable(r)
    ensures PartsOf(["FREQ=" + r.frequency] + ["INTERVAL=" + Decimal(r.interval)]) ==
              map["FREQ" := r.frequency, "INTERVAL" := Decimal(r.interval)]
  {
    hide PartsOf, Decimal;
    TokensArePlain(r);
    PartIsAdded([], "FREQ", r.frequency);
    NoPieces();
    assert [] + ["FREQ=" + r.frequency] == ["FREQ=" + r.frequency];
    assert "FREQ" + "=" + r.frequency == "FREQ=" + r.frequency;
    PartIsAdded(["FREQ=" + r.frequency], "INTERVAL", Decimal(r.interval));
    assert "INTERVAL" + "=" + Decimal(r.interval) == "INTERVAL=" + Decimal(r.interval);
  }

  lemma NoPieces()
    ensures PartsOf([]) == map[]
  {
  }

  lemma PiecesHaveNoSeparator(r: Rule, pieces: seq<string>)
    requires Writable(r)
    requires pieces ==
               ["FREQ=" + r.frequency] + ["INTERVAL=" + Decimal(r.interval)]
               + Part("COUNT", if r.count.Some? then [Decimal(r.count.value)] else [])
               + Part("BYDAY", Names(r.byDay)) + Part("BYMONTHDAY", Numbers(r.byMonthDay))
               + Part("BYMONTH", Numbers(r.byMonth))
    ensures forall p :: p in pieces ==> ';' !in p
  {
    hide Join, Plain, Decimal;
    TokensArePlain(r);
    PartHasNoSeparator("COUNT", if r.count.Some? then [Decimal(r.count.value)] else []);
    PartHasNoSeparator("BYDAY", Names(r.byDay));
    PartHasNoSeparator("BYMONTHDAY", Numbers(r.byMonthDay));
    PartHasNoSeparator("BYMONTH", Numbers(r.byMonth));
    hide Part;
  }

  lemma PartHasNoSeparator(key: string, tokens: seq<string>)
    requires ';' !in key && forall t :: t in tokens ==> Plain(t) && ';' !in t
    ensures forall p :: p in Part(key, tokens) ==> ';' !in p
  {
    JoinFacts(tokens, ',', ';');
  }

  lemma ListIsRead(parts: map<string, string>, key: string, values: seq<int>, tokens: seq<string>,
                   parse: string -> Option<int>)
    requires |tokens| == |values|
    requires forall i :: 0 <= i < |tokens| ==> parse(tokens[i]) == Some(values[i])
    requires forall t :: t in tokens ==> ',' !in t
    requires if values == [] then key !in parts else key in parts && parts[key] == Join(tokens, ',')
    ensures CollectPart(parts, key, parse) == Some(values)
  {
    if values != [] {
      SplitUndoesJoin(tokens, ',');
      CollectedExactlyWhen(tokens, parse);
      forall t | t in tokens ensures parse(t).Some? {
        var i :| 0 <= i < |tokens| && tokens[i] == t;
      }
      var got := CollectTokens(tokens, parse).value;
      forall i | 0 <= i < |tokens| ensures got[i] == values[i] {
        assert Some(got[i]) == parse(tokens[i]);
      }
      assert got == values;
    }
  }

  /** Reading undoes writing, on every rule that can be written. */
  lemma ReadUndoesWritten(r: Rule)
    requires Writable(r)
    ensures ReadRule(Written(r)) == Some(r)
  {
    hide Split, PartsOf, Decimal, Join, Plain, Written, ParseInt, CollectPart;
    var parts := EntriesOf(r);
    EntriesAreRead(r);
    NumbersAreRead(r, parts);
    ListsAreRead(r, parts);
    assert parts.Keys * REFUSED == {};
  }

  lemma NumbersAreRead(r: Rule, parts: map<string, string>)
    requires Writable(r) && parts == EntriesOf(r)
    ensures "INTERVAL" in parts && ParseInt(parts["INTERVAL"], 0x7FFF_FFFF_FFFF_FFFF) == Some(r.interval)
    ensures "FREQ" in parts && parts["FREQ"] == r.frequency
    ensures ("COUNT" in parts) <==> r.count.Some?
    ensures r.count.Some? ==>
              && !StartsWith(parts["COUNT"], "-")
              && ParseInt(parts["COUNT"], 0xFFFF_FFFF_FFFF_FFFF) == r.count
  {
    hide ParseInt, Join, Decimal;
    SignedFacts(r.interval, 0x7FFF_FFFF_FFFF_FFFF);
    if r.count.Some? {
      SignedFacts(r.count.value, 0xFFFF_FFFF_FFFF_FFFF);
      DecimalFacts(r.count.value);
    }
  }

  lemma ListsAreRead(r: Rule, parts: map<string, string>)
    requires Writable(r) && parts == EntriesOf(r)
    ensures CollectPart(parts, "BYDAY", WeekdayCode) == Some(r.byDay)
    ensures CollectPart(parts, "BYMONTHDAY", IntToken) == Some(r.byMonthDay)
    ensures CollectPart(parts, "BYMONTH", IntToken) == Some(r.byMonth)
  {
    hide CollectPart, WeekdayCode, Join, Decimal, ParseInt, Trim, Plain;
    TokensArePlain(r);
    forall i | 0 <= i < |r.byDay| ensures WeekdayCode(Names(r.byDay)[i]) == Some(r.byDay[i]) {
      NamesAreRead(r.byDay[i]);
    }
    forall i | 0 <= i < |r.byMonthDay| ensures IntToken(Numbers(r.byMonthDay)[i]) == Some(r.byMonthDay[i]) {
      SignedFacts(r.byMonthDay[i], 0x7FFF_FFFF);
    }
    forall i | 0 <= i < |r.byMonth| ensures IntToken(Numbers(r.byMonth)[i]) == Some(r.byMonth[i]) {
      SignedFacts(r.byMonth[i], 0x7FFF_FFFF);
    }
    ListIsRead(parts, "BYDAY", r.byDay, Names(r.byDay), WeekdayCode);
    ListIsRead(parts, "BYMONTHDAY", r.byMonthDay, Numbers(r.byMonthDay), IntToken);
    ListIsRead(parts, "BYMONTH", r.byMonth, Numbers(r.byMonth), IntToken);
  }

  // ----- Case, and what is refused -----

  function UpperEach(pieces: seq<string>): (r: seq<string>)
    ensures |r| == |pieces| && forall i :: 0 <= i < |r| ==> r[i] == UpperAll(pieces[i])
  {
    seq(|pieces|, i requires 0 <= i < |pieces| => UpperAll(pieces[i]))
  }

  lemma HalvesInCapitals(s: string, i: nat)
    requires i < |s|
    ensures UpperAll(s)[..i] == UpperAll(s[..i])
    ensures UpperAll(s)[i + 1..] == UpperAll(s[i + 1..])
  {
  }

  lemma EachOfMore(first: string, rest: seq<string>)
    ensures UpperEach([first] + rest) == [UpperAll(first)] + UpperEach(rest)
  {
    hide UpperAll;
  }

  lemma {:induction false} SplitInCapitals(s: string, sep: char)
    requires !('a' <= sep <= 'z') && !('A' <= sep <= 'Z')
    ensures Split(UpperAll(s), sep) == UpperEach(Split(s, sep))
    decreases |s|
  {
    hide UpperAll, UpperEach, IndexOf, Split;
    var i := IndexOf(s, sep);
    IndexInCapitals(s, sep);
    SplitOnce(s, sep);
    SplitOnce(UpperAll(s), sep);
    if i < |s| {
      SplitInCapitals(s[i + 1..], sep);
      HalvesInCapitals(s, i);
      EachOfMore(s[..i], Split(s[i + 1..], sep));
    } else {
      EachOfMore(s, []);
      NoneOf();
      assert [s] + [] == [s] && [UpperAll(s)] + [] == [UpperAll(s)];
    }
  }

  lemma SplitOnce(s: string, sep: char)
    ensures var i := IndexOf(s, sep);
            Split(s, sep) == if i == |s| then [s] else [s[..i]] + Split(s[i + 1..], sep)
  {
    hide IndexOf;
  }

  lemma NoneOf()
    ensures UpperEach([]) == []
  {
  }

  lemma IndexInCapitals(s: string, sep: char)
    requires !('a' <= sep <= 'z') && !('A' <= sep <= 'Z')
    ensures IndexOf(UpperAll(s), sep) == IndexOf(s, sep)
  {
    var i := IndexOf(s, sep);
    assert forall j :: 0 <= j < |s| ==> (UpperAll(s)[j] == sep <==> s[j] == sep);
  }

  lemma UpperTwice(c: char)
    ensures Upper(Upper(c)) == Upper(c)
  {
  }

  lemma HeadInCapitals(s: string, i: nat)
    requires i <= |s|
    ensures UpperAll(UpperAll(s)[..i]) == UpperAll(s[..i])
  {
    var head, head' := UpperAll(UpperAll(s)[..i]), UpperAll(s[..i]);
    forall j | 0 <= j < i ensures head[j] == head'[j] {
      UpperTwice(s[j]);
    }
  }

  lemma TailInCapitals(s: string, i: nat)
    requires i <= |s|
    ensures UpperAll(UpperAll(s)[i..]) == UpperAll(s[i..])
  {
    var tail, tail' := UpperAll(UpperAll(s)[i..]), UpperAll(s[i..]);
    forall j | 0 <= j < |s| - i ensures tail[j] == tail'[j] {
      UpperTwice(s[i + j]);
    }
  }

  lemma PieceInCapitals(piece: string)
    ensures var i, capital := IndexOf(piece, '='), UpperAll(piece);
            && IndexOf(capital, '=') == i
            && (i < |piece| ==> UpperAll(capital[..i]) == UpperAll(piece[..i])
                                && UpperAll(capital[i + 1..]) == UpperAll(piece[i + 1..]))
  {
    hide UpperAll, IndexOf;
    var i := IndexOf(piece, '=');
    IndexInCapitals(piece, '=');
    if i < |piece| {
      HeadInCapitals(piece, i);
      TailInCapitals(piece, i + 1);
    }
  }

  lemma {:induction false} PartsInCapitals(pieces: seq<string>)
    ensures PartsOf(UpperEach(pieces)) == PartsOf(pieces)
  {
    if pieces == [] {
    } else {
      hide UpperAll;
      var n := |pieces| - 1;
      PartsInCapitals(pieces[..n]);
      assert UpperEach(pieces)[..n] == UpperEach(pieces[..n]);
      PieceInCapitals(pieces[n]);
    }
  }

  /** Rules that differ in the case of letters alone are read alike. */
  lemma CaseNeverMatters(text: string, text': string)
    requires EqIgnoreCase(text, text')
    ensures ReadRule(text) == ReadRule(text')
  {
    assert |text| == |text'| by {
      assert |LowerAll(text)| == |LowerAll(text')|;
    }
    forall i | 0 <= i < |text| ensures Upper(text[i]) == Upper(text'[i]) {
      assert LowerAll(text)[i] == LowerAll(text')[i];
    }
    assert UpperAll(text) == UpperAll(text');
    hide ReadRule, PartsOf, Split, UpperAll;
    SplitInCapitals(text, ';');
    SplitInCapitals(text', ';');
    PartsInCapitals(Split(text, ';'));
    PartsInCapitals(Split(text', ';'));
    ReadsItsParts(text, text');
  }

  lemma ReadsItsParts(text: string, text': string)
    requires PartsOf(Split(text, ';')) == PartsOf(Split(text', ';'))
    ensures ReadRule(text) == ReadRule(text')
  {
    hide PartsOf, Split;
  }

  /** A part that expansion cannot honour exactly refuses the rule. */
  lemma UnhonouredPartRefuses(text: string, key: string)
    requires key in PartsOf(Split(text, ';'))
    requires key in ["BYSETPOS", "BYWEEKNO", "BYYEARDAY", "BYHOUR", "BYMINUTE", "BYSECOND"]
    ensures ReadRule(text).None?
  {
    hide PartsOf, Split;
    assert key in PartsOf(Split(text, ';')).Keys * REFUSED;
  }

  /** What is not said is not asked for: every step, no count, every weekday, day and month. */
  lemma BareRuleIsRead(frequency: string)
    requires Plain(frequency) && ';' !in frequency
    ensures ReadRule("FREQ=" + frequency) == Some(Rule(frequency, 1, None, [], [], []))
  {
    var text := "FREQ=" + frequency;
    hide Split, PartsOf, Plain;
    KeysArePlain();
    NothingToCut(text, ';');
    NoPieces();
    PartIsAdded([], "FREQ", frequency);
    assert "FREQ" + "=" + frequency == text;
    assert [] + [text] == [text];
    assert ';' !in "FREQ=" && forall i :: 5 <= i < |text| ==> text[i] == frequency[i - 5];
    var parts := PartsOf(Split(text, ';'));
    assert parts == map["FREQ" := frequency];
    assert parts.Keys * REFUSED == {};
  }

  /** An interval or a count that is no number is as good as none; a negative count is none either. */
  lemma UnreadableNumbersAreLeftOut(text: string)
    requires ReadRule(text).Some?
    ensures var parts, r := PartsOf(Split(text, ';')), ReadRule(text).value;
            && ("INTERVAL" in parts && ParseInt(parts["INTERVAL"], 0x7FFF_FFFF_FFFF_FFFF).None? ==> r.interval == 1)
            && ("COUNT" in parts && parts["COUNT"] != "" && parts["COUNT"][0] == '-' ==> r.count.None?)
            && ("COUNT" in parts && ParseInt(parts["COUNT"], 0xFFFF_FFFF_FFFF_FFFF).None? ==> r.count.None?)
  {
    hide PartsOf, Split, ParseInt, CollectPart;
  }

  /** A weekday is one of the seven codes and nothing else: a numbered one such as the second Friday is not read. */
  lemma WeekdayIsReadExactlyWhen(code: string, d: int)
    ensures WeekdayCode(code) == Some(d) <==> 0 <= d < 7 && Trim(code) == WEEKDAYS[d]
  {
    hide Trim;
  }

  lemma {:induction false} DigitsAreReadExactlyWhen(s: string)
    ensures DigitsValue(s).Some? <==> s != "" && forall i :: 0 <= i < |s| ==> '0' <= s[i] <= '9'
  {
    if |s| > 1 {
      DigitsAreReadExactlyWhen(s[..|s| - 1]);
    }
  }

  /** A number is read only from a sign, if any, and digits, and only within its width. */
  lemma NumberIsReadOnlyWhen(s: string, limit: nat, v: int)
    requires ParseInt(s, limit) == Some(v)
    ensures -1 - limit <= v <= limit
    ensures s != "" && (s[0] == '-' || s[0] == '+' || '0' <= s[0] <= '9')
    ensures |s| == 1 ==> '0' <= s[0] <= '9'
    ensures forall i :: 1 <= i < |s| ==> '0' <= s[i] <= '9'
  {
    DigitsAreReadExactlyWhen(s);
    if s != "" {
      DigitsAreReadExactlyWhen(s[1..]);
      assert forall i :: 1 <= i < |s| ==> s[i] == s[1..][i - 1];
    }
    hide DigitsValue;
  }
}
