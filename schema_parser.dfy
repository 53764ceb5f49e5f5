/** The reader of netlist text in two dialects, Allegro (a "$NETS" section of lines
    "name; element.pin, element.pin", continued while a line ends with ',') and Calay
    (statements "name element(pin) element(pin);", continued until a line ends with ';').
    Each net becomes a chain of the distinct elements it names, unless one of its items
    starts with the prefix that marks the ground element e0. */
module SchemaParsers {
  import opened Wrappers
  import opened Seqs
  import opened Text
  import opened Elements
  import opened Chains
  import opened Schemas

  datatype SchemaFormat = Allegro | Calay

  datatype ParseError =
    | EmptyDescription
    | BlankPrefix
    | LineIndexOutOfRange
    | InvalidElement(elementError: ElementError)
    | InvalidChain(chainError: ChainError)
    | InvalidSchema(schemaError: SchemaError)

  /** A net read from the text: the chain's name and its element names. */
  datatype Net = Net(Name: string, Members: seq<string>)

  const TrimChars: set<char> := {'\t', ' '}

  /** Parse's clean-up: blank lines are dropped, the others trimmed of tabs and spaces. */
  function Clean(lines: seq<string>): (r: seq<string>)
    ensures |r| <= |lines|
  {
    if lines == [] then []
    else
      var pre := Clean(lines[..|lines| - 1]);
      var last := lines[|lines| - 1];
      if IsBlank(last) then pre else pre + [Trim(last, TrimChars)]
  }

  /** The dialect: Allegro exactly when some cleaned line is the "$NETS" marker. */
  function FormatOf(lines: seq<string>): SchemaFormat {
    if "$NETS" in lines then Allegro else Calay
  }

  /** SkipWhile(line != "$NETS"): everything from the first "$NETS" on. */
  function FromNets(lines: seq<string>): (r: seq<string>)
    ensures |r| <= |lines| && r == lines[|lines| - |r|..]
    ensures r == [] || r[0] == "$NETS"
    ensures forall i :: 0 <= i < |lines| - |r| ==> lines[i] != "$NETS"
  {
    if lines == [] || lines[0] == "$NETS" then lines else FromNets(lines[1..])
  }

  /** Where(line != "$NETS" && line != "$END"). */
  function DropMarkers(lines: seq<string>): (r: seq<string>)
    ensures |r| <= |lines|
    ensures forall x :: x in r <==> x in lines && x != "$NETS" && x != "$END"
    ensures forall x :: multiset(r)[x] == if x == "$NETS" || x == "$END" then 0 else multiset(lines)[x]
  {
    if lines == [] then []
    else
      var pre := DropMarkers(lines[..|lines| - 1]);
      var last := lines[|lines| - 1];
      assert lines == lines[..|lines| - 1] + [last];
      if last == "$NETS" || last == "$END" then pre else pre + [last]
  }

  /** The filter keeps the order of the lines: filtering a concatenation filters each part. */
  lemma {:induction false} DropMarkersAppend(a: seq<string>, b: seq<string>)
    ensures DropMarkers(a + b) == DropMarkers(a) + DropMarkers(b)
  {
    if b == [] {
      assert a + b == a;
    } else {
      var b' := b[..|b| - 1];
      DropMarkersAppend(a, b');
      assert (a + b)[..|a + b| - 1] == a + b';
      assert (a + b)[|a + b| - 1] == b[|b| - 1];
    }
  }

  /** The lines the dialect's reader works on. */
  function BodyLines(f: SchemaFormat, lines: seq<string>): seq<string> {
    match f
    case Allegro => DropMarkers(FromNets(lines))
    case Calay => lines
  }

  /** `line.EndsWith(c)` for a one-character string c: the line's last character is c. */
  predicate LastIs(line: string, c: char) {
    line != [] && line[|line| - 1] == c
  }

  /** Whether a line continues on the next one. */
  function Continues(f: SchemaFormat, line: string): bool {
    match f
    case Allegro => LastIs(line, ',')
    case Calay => !LastIs(line, ';')
  }

  /** The characters separating the items of a net (the same four in both dialects). */
  function Separators(f: SchemaFormat): set<char> {
    match f
    case Allegro => {';', ' ', '\t', ','}
    case Calay => {' ', '\t', ';', ','}
  }

  /** The character that ends the element name inside an item (before the pin). */
  function NameEnd(f: SchemaFormat): char {
    match f
    case Allegro => '.'
    case Calay => '('
  }

  /** The joined line starting at `lines[index]` (already extended to `line`), and the
      index of its last part; running out of lines is an index error. */
  function JoinFrom(f: SchemaFormat, lines: seq<string>, index: nat, line: string): (r: Result<(string, nat), ParseError>)
    requires index < |lines|
    ensures r.Ok? ==> index <= r.value.1 < |lines| && !Continues(f, r.value.0)
    ensures r.Err? ==> r.error == LineIndexOutOfRange
    decreases |lines| - index
  {
    if !Continues(f, line) then Ok((line, index))
    else if index + 1 < |lines| then JoinFrom(f, lines, index + 1, line + lines[index + 1])
    else Err(LineIndexOutOfRange)
  }

  /** items.Skip(1) */
  function Skip1(items: seq<string>): seq<string> {
    if items == [] then [] else items[1..]
  }

  /** LINQ Any(item => item.StartsWith(prefix)). */
  function AnyStartsWith(items: seq<string>, prefix: string): (b: bool)
    ensures b <==> exists k :: 0 <= k < |items| && StartsWith(items[k], prefix)
  {
    if items == [] then false
    else StartsWith(items[0], prefix) || AnyStartsWith(items[1..], prefix)
  }

  /** The element names of a net's items: each item after the first, cut at NameEnd. */
  function ElementNames(f: SchemaFormat, items: seq<string>): (names: seq<string>)
    ensures |names| == |Skip1(items)|
    ensures forall k :: 0 <= k < |names| ==> names[k] == TakeUntil(Skip1(items)[k], NameEnd(f))
  {
    var rest := Skip1(items);
    seq(|rest|, k requires 0 <= k < |rest| => TakeUntil(rest[k], NameEnd(f)))
  }

  /** The net of one joined line: none when an item after the first carries the e0
      prefix or fewer than two distinct elements remain; an error for an empty element
      name or a blank chain name. */
  function NetOf(f: SchemaFormat, line: string, prefix: string): Result<Option<Net>, ParseError> {
    var items := Split(line, Separators(f));
    if AnyStartsWith(Skip1(items), prefix) then Ok(None)
    else
      var names := ElementNames(f, items);
      if [] in names then Err(InvalidElement(EmptyName))
      else
        var distinct := Distinct(names);
        if |distinct| <= 1 then Ok(None)
        else if IsBlank(items[0]) then Err(InvalidChain(BlankName))
        else Ok(Some(Net(items[0], distinct)))
  }

  /** The nets of `lines[index..]`, in order, or the first error met. */
  function NetsFrom(f: SchemaFormat, lines: seq<string>, index: nat, prefix: string): Result<seq<Net>, ParseError>
    decreases |lines| - index, 1
  {
    if index >= |lines| then Ok([]) else NetsAt(f, lines, index, prefix, JoinFrom(f, lines, index, lines[index]))
  }

  /** The nets of `lines[index..]` once the statement at `index` has been joined: the
      joining error, or the statement's outcome followed by the nets after its last line. */
  function NetsAt(f: SchemaFormat, lines: seq<string>, index: nat, prefix: string,
                  joined: Result<(string, nat), ParseError>): Result<seq<Net>, ParseError>
    requires joined.Ok? ==> index <= joined.value.1 < |lines|
    decreases |lines| - index, 0
  {
    match joined
    case Err(e) => Err(e)
    case Ok((line, last)) => Combine(NetOf(f, line, prefix), NetsFrom(f, lines, last + 1, prefix))
  }

  /** A statement's outcome followed by the outcome of the statements after it: the
      statement's error if it has one, else its net (if any) before the later nets or
      the later error. */
  function Combine(net: Result<Option<Net>, ParseError>, rest: Result<seq<Net>, ParseError>): Result<seq<Net>, ParseError> {
    match net
    case Err(e) => Err(e)
    case Ok(n) => Prepend(Found(n), rest)
  }

  function NetNames(nets: seq<Net>): seq<string> {
    seq(|nets|, i requires 0 <= i < |nets| => nets[i].Name)
  }

  /** What a whole description parses to: the argument checks, the dialect's nets, then
      the schema's own checks on the chain list. */
  function Parsed(lines: seq<string>, prefix: string): Result<seq<Net>, ParseError> {
    if lines == [] then Err(EmptyDescription)
    else if IsBlank(prefix) then Err(BlankPrefix)
    else
      var cleaned := Clean(lines);
      var f := FormatOf(cleaned);
      match NetsFrom(f, BodyLines(f, cleaned), 0, prefix)
      case Err(e) => Err(e)
      case Ok(nets) =>
        if nets == [] then Err(InvalidSchema(NoChains))
        else if !NoDuplicates(NetNames(nets)) then Err(InvalidSchema(DuplicateChains))
        else Ok(nets)
  }

  /** The nets a list of chains describes. */
  function NetsOf(chains: seq<Chain>): (nets: seq<Net>)
    ensures |nets| == |chains|
    ensures forall i :: 0 <= i < |chains| ==> nets[i] == Net(chains[i].Name, Members(chains[i]))
  {
    seq(|chains|, i requires 0 <= i < |chains| => Net(chains[i].Name, Members(chains[i])))
  }

  function Prepend(nets: seq<Net>, r: Result<seq<Net>, ParseError>): Result<seq<Net>, ParseError> {
    match r
    case Ok(rest) => Ok(nets + rest)
    case Err(e) => Err(e)
  }

  /** Parse: checks the arguments, cleans the lines and hands them to the dialect named by
      the presence of a "$NETS" line. */
  method Parse(lines: seq<string>, prefix: string) returns (r: Result<Schema, ParseError>)
    ensures r.Ok? <==> Parsed(lines, prefix).Ok?
    ensures r.Err? ==> r.error == Parsed(lines, prefix).error
    ensures r.Ok? ==> fresh(r.value) && r.value.Valid() && NetsOf(r.value.Chains) == Parsed(lines, prefix).value
  {
    if |lines| == 0 {
      return Err(EmptyDescription);
    }
    if IsBlank(prefix) {
      return Err(BlankPrefix);
    }
    ParsedAfterChecks(lines, prefix);
    r := ParseCleaned(Clean(lines), prefix);
  }

  /** Hands the cleaned lines to the dialect named by the presence of a "$NETS" line. */
  method ParseCleaned(lines: seq<string>, prefix: string) returns (r: Result<Schema, ParseError>)
    ensures r.Ok? <==> SchemaOf(NetsFrom(FormatOf(lines), BodyLines(FormatOf(lines), lines), 0, prefix)).Ok?
    ensures r.Err? ==> r.error == SchemaOf(NetsFrom(FormatOf(lines), BodyLines(FormatOf(lines), lines), 0, prefix)).error
    ensures r.Ok? ==> fresh(r.value) && r.value.Valid()
    ensures r.Ok? ==> NetsOf(r.value.Chains) == NetsFrom(FormatOf(lines), BodyLines(FormatOf(lines), lines), 0, prefix).value
  {
    if "$NETS" in lines {
      r := ParseAllegro(lines, prefix);
    } else {
      r := ParseCalay(lines, prefix);
    }
  }

  /** The Allegro reader: the lines from "$NETS" on, without the marker lines. */
  method ParseAllegro(lines: seq<string>, prefix: string) returns (r: Result<Schema, ParseError>)
    ensures r.Ok? <==> SchemaOf(NetsFrom(Allegro, BodyLines(Allegro, lines), 0, prefix)).Ok?
    ensures r.Err? ==> r.error == SchemaOf(NetsFrom(Allegro, BodyLines(Allegro, lines), 0, prefix)).error
    ensures r.Ok? ==> fresh(r.value) && r.value.Valid()
    ensures r.Ok? ==> NetsOf(r.value.Chains) == NetsFrom(Allegro, BodyLines(Allegro, lines), 0, prefix).value
  {
    var body := DropMarkers(FromNets(lines));
    r := ReadSchema(Allegro, body, prefix);
  }

  /** The Calay reader: all lines. */
  method ParseCalay(lines: seq<string>, prefix: string) returns (r: Result<Schema, ParseError>)
    ensures r.Ok? <==> SchemaOf(NetsFrom(Calay, lines, 0, prefix)).Ok?
    ensures r.Err? ==> r.error == SchemaOf(NetsFrom(Calay, lines, 0, prefix)).error
    ensures r.Ok? ==> fresh(r.value) && r.value.Valid() && NetsOf(r.value.Chains) == NetsFrom(Calay, lines, 0, prefix).value
  {
    r := ReadSchema(Calay, lines, prefix);
  }

  lemma ParsedAfterChecks(lines: seq<string>, prefix: string)
    requires lines != [] && !IsBlank(prefix)
    ensures Parsed(lines, prefix) ==
      SchemaOf(NetsFrom(FormatOf(Clean(lines)), BodyLines(FormatOf(Clean(lines)), Clean(lines)), 0, prefix))
  {
  }

  /** The schema's checks applied to the nets read. */
  function SchemaOf(nets: Result<seq<Net>, ParseError>): Result<seq<Net>, ParseError> {
    match nets
    case Err(e) => Err(e)
    case Ok(ns) =>
      if ns == [] then Err(InvalidSchema(NoChains))
      else if !NoDuplicates(NetNames(ns)) then Err(InvalidSchema(DuplicateChains))
      else Ok(ns)
  }

  /** Reads the chains and builds the schema from them. */
  method ReadSchema(f: SchemaFormat, lines: seq<string>, prefix: string) returns (r: Result<Schema, ParseError>)
    ensures r.Ok? <==> SchemaOf(NetsFrom(f, lines, 0, prefix)).Ok?
    ensures r.Err? ==> r.error == SchemaOf(NetsFrom(f, lines, 0, prefix)).error
    ensures r.Ok? ==> fresh(r.value) && r.value.Valid() && NetsOf(r.value.Chains) == NetsFrom(f, lines, 0, prefix).value
  {
    var chains := ReadChains(f, lines, prefix);
    if chains.Err? {
      return Err(chains.error);
    }
    NetNamesOf(chains.value);
    var s := NewSchema(chains.value);
    if s.Err? {
      return Err(InvalidSchema(s.error));
    }
    return Ok(s.value);
  }

  lemma NetNamesOf(chains: seq<Chain>)
    ensures NetNames(NetsOf(chains)) == ChainNames(chains)
    ensures (NetsOf(chains) == []) == (chains == [])
  {
  }

  /** The reading loop shared by both dialects: join a statement's lines, read the
      statement, and add its chain if it makes one. */
  method ReadChains(f: SchemaFormat, lines: seq<string>, prefix: string) returns (r: Result<seq<Chain>, ParseError>)
    ensures r.Ok? <==> NetsFrom(f, lines, 0, prefix).Ok?
    ensures r.Err? ==> r.error == NetsFrom(f, lines, 0, prefix).error
    ensures r.Ok? ==> ValidChains(r.value) && NetsOf(r.value) == NetsFrom(f, lines, 0, prefix).value
  {
    var chains: seq<Chain> := [];
    var index := 0;
    PrependNothing(NetsFrom(f, lines, 0, prefix));
    while index < |lines|
      invariant NetsFrom(f, lines, 0, prefix) == Prepend(NetsOf(chains), NetsFrom(f, lines, index, prefix))
      invariant ValidChains(chains)
      decreases |lines| - index
    {
      var step := ReadStatement(f, lines, index, prefix);
      if step.Err? {
        return Err(step.error);
      }
      var (found, next) := step.value;
      PrependTwice(NetsOf(chains), NetsOf(found), NetsFrom(f, lines, next, prefix));
      assert NetsOf(chains + found) == NetsOf(chains) + NetsOf(found);
      chains := chains + found;
      index := next;
    }
    assert NetsOf(chains) + [] == NetsOf(chains);
    return Ok(chains);
  }

  /** Reads the statement starting at `lines[index]`: the chains it contributes (none or
      one) and the index of the line after it. */
  method ReadStatement(f: SchemaFormat, lines: seq<string>, index: nat, prefix: string)
    returns (r: Result<(seq<Chain>, nat), ParseError>)
    requires index < |lines|
    ensures r.Err? ==> NetsFrom(f, lines, index, prefix) == Err(r.error)
    ensures r.Ok? ==> index < r.value.1 && ValidChains(r.value.0) && |r.value.0| <= 1
    ensures r.Ok? ==> NetsFrom(f, lines, index, prefix) == Prepend(NetsOf(r.value.0), NetsFrom(f, lines, r.value.1, prefix))
  {
    var joined := JoinLines(f, lines, index);
    if joined.Err? {
      JoinFails(f, lines, index, prefix);
      return Err(joined.error);
    }
    var line, last := joined.value.0, joined.value.1;
    var chain := ReadNet(f, line, prefix);
    if chain.Err? {
      StatementFails(f, lines, index, prefix, line, last);
      return Err(chain.error);
    }
    var found := if chain.value.Some? then [chain.value.value] else [];
    StatementReads(f, lines, index, prefix, line, last, chain.value, found);
    return Ok((found, last + 1));
  }

  /** Joins `lines[index]` with the lines that follow while the joined text continues. */
  method JoinLines(f: SchemaFormat, lines: seq<string>, index: nat) returns (r: Result<(string, nat), ParseError>)
    requires index < |lines|
    ensures r == JoinFrom(f, lines, index, lines[index])
  {
    var i := index;
    var line := lines[index];
    while Continues(f, line)
      invariant index <= i < |lines|
      invariant JoinFrom(f, lines, index, lines[index]) == JoinFrom(f, lines, i, line)
      decreases |lines| - i
    {
      i := i + 1;
      if i >= |lines| {
        return Err(LineIndexOutOfRange);
      }
      line := line + lines[i];
    }
    return Ok((line, i));
  }

  /** The nets a statement contributes: its net, if it makes one. */
  function Found(net: Option<Net>): seq<Net> {
    if net.Some? then [net.value] else []
  }

  /** A statement whose lines cannot be joined makes the whole reading fail with the
      joining error. */
  lemma JoinFails(f: SchemaFormat, lines: seq<string>, index: nat, prefix: string)
    requires index < |lines| && JoinFrom(f, lines, index, lines[index]).Err?
    ensures NetsFrom(f, lines, index, prefix) == Err(JoinFrom(f, lines, index, lines[index]).error)
  {
    NetsFromJoined(f, lines, index, prefix);
  }

  /** A statement whose net is refused makes the whole reading fail with its error. */
  lemma StatementFails(f: SchemaFormat, lines: seq<string>, index: nat, prefix: string, line: string, last: nat)
    requires index < |lines| && JoinFrom(f, lines, index, lines[index]) == Ok((line, last))
    requires NetOf(f, line, prefix).Err?
    ensures NetsFrom(f, lines, index, prefix) == Err(NetOf(f, line, prefix).error)
  {
    NetsFromStep(f, lines, index, prefix, line, last);
  }

  /** A statement whose net is read contributes the chain made of it, if any, ahead of the
      nets of the statements after it. */
  lemma StatementReads(f: SchemaFormat, lines: seq<string>, index: nat, prefix: string, line: string, last: nat,
                       chain: Option<Chain>, found: seq<Chain>)
    requires index < |lines| && JoinFrom(f, lines, index, lines[index]) == Ok((line, last))
    requires NetOf(f, line, prefix).Ok?
    requires chain.Some? <==> NetOf(f, line, prefix).value.Some?
    requires chain.Some? ==> Net(chain.value.Name, Members(chain.value)) == NetOf(f, line, prefix).value.value
    requires found == if chain.Some? then [chain.value] else []
    ensures NetsFrom(f, lines, index, prefix) == Prepend(NetsOf(found), NetsFrom(f, lines, last + 1, prefix))
  {
    NetsFromStep(f, lines, index, prefix, line, last);
    assert NetsOf(found) == Found(NetOf(f, line, prefix).value);
  }

  /** NetsFrom unfolded once, at a statement that joins without error. */
  lemma NetsFromStep(f: SchemaFormat, lines: seq<string>, index: nat, prefix: string, line: string, last: nat)
    requires index < |lines| && JoinFrom(f, lines, index, lines[index]) == Ok((line, last))
    ensures NetsFrom(f, lines, index, prefix) == Combine(NetOf(f, line, prefix), NetsFrom(f, lines, last + 1, prefix))
  {
    NetsFromJoined(f, lines, index, prefix);
    NetsAtJoined(f, lines, index, prefix, line, last);
  }

  lemma NetsFromJoined(f: SchemaFormat, lines: seq<string>, index: nat, prefix: string)
    requires index < |lines|
    ensures NetsFrom(f, lines, index, prefix) == NetsAt(f, lines, index, prefix, JoinFrom(f, lines, index, lines[index]))
  {
  }

  lemma NetsAtJoined(f: SchemaFormat, lines: seq<string>, index: nat, prefix: string, line: string, last: nat)
    requires index <= last < |lines|
    ensures NetsAt(f, lines, index, prefix, Ok((line, last))) ==
      Combine(NetOf(f, line, prefix), NetsFrom(f, lines, last + 1, prefix))
  {
  }

  lemma PrependNothing(r: Result<seq<Net>, ParseError>)
    ensures Prepend([], r) == r
  {
    if r.Ok? {
      assert [] + r.value == r.value;
    }
  }

  lemma PrependTwice(a: seq<Net>, b: seq<Net>, r: Result<seq<Net>, ParseError>)
    ensures Prepend(a, Prepend(b, r)) == Prepend(a + b, r)
  {
    if r.Ok? {
      assert a + (b + r.value) == (a + b) + r.value;
    }
  }

  /** One joined statement: split it into items, skip it when an item after the first
      carries the e0 prefix, make an element of every other item (cut at NameEnd), and
      make a chain named by the first item when more than one distinct element remains. */
  method ReadNet(f: SchemaFormat, line: string, prefix: string) returns (r: Result<Option<Chain>, ParseError>)
    ensures r.Ok? <==> NetOf(f, line, prefix).Ok?
    ensures r.Err? ==> r.error == NetOf(f, line, prefix).error
    ensures r.Ok? ==> (r.value.Some? <==> NetOf(f, line, prefix).value.Some?)
    ensures r.Ok? && r.value.Some? ==> ValidChain(r.value.value)
    ensures r.Ok? && r.value.Some? ==> Net(r.value.value.Name, Members(r.value.value)) == NetOf(f, line, prefix).value.value
  {
    var items := Split(line, Separators(f));
    if AnyStartsWith(Skip1(items), prefix) {
      return Ok(None);
    }
    var names := ElementNames(f, items);
    var elements := MakeElements(names);
    if elements.Err? {
      return Err(InvalidElement(elements.error));
    }
    DistinctSpec(names);
    if |elements.value| <= 1 {
      return Ok(None);
    }
    var c := NewChain(items[0], elements.value);
    if c.Err? {
      return Err(InvalidChain(c.error));
    }
    return Ok(Some(c.value));
  }

  /** The elements of a statement's names, in order, keeping the first of each name (the
      source's Distinct over elements compared by name); an empty name is refused by the
      Element constructor. */
  method MakeElements(names: seq<string>) returns (r: Result<seq<Element>, ElementError>)
    ensures r.Ok? <==> [] !in names
    ensures r.Err? ==> r.error == EmptyName
    ensures r.Ok? ==> Names(r.value) == Distinct(names)
  {
    var elements: seq<Element> := [];
    for k := 0 to |names|
      invariant Names(elements) == Distinct(names[..k])
      invariant [] !in names[..k]
    {
      var e := NewElement(names[k]);
      if e.Err? {
        assert names[k] in names;
        return Err(e.error);
      }
      NamesStep(elements, e.value, names, k);
      if e.value.Name !in Names(elements) {
        elements := elements + [e.value];
      }
    }
    assert names[..|names|] == names;
    return Ok(elements);
  }

  /** Keeping a new element exactly when its name is new extends the names kept so far by
      the next name's Distinct step. */
  lemma NamesStep(elements: seq<Element>, e: Element, names: seq<string>, k: nat)
    requires k < |names| && NameOf(e) == names[k] && names[k] != []
    requires Names(elements) == Distinct(names[..k]) && [] !in names[..k]
    ensures Names(if e.Name in Names(elements) then elements else elements + [e]) == Distinct(names[..k + 1])
    ensures [] !in names[..k + 1]
  {
    DistinctStep(names, k);
    assert names[..k + 1] == names[..k] + [names[k]];
    if e.Name !in Names(elements) {
      NamesAppend(elements, e);
    }
  }

  lemma NamesAppend(elements: seq<Element>, e: Element)
    ensures Names(elements + [e]) == Names(elements) + [e.Name]
  {
  }

  /** One step of Distinct over a growing prefix. */
  lemma DistinctStep(names: seq<string>, k: nat)
    requires k < |names|
    ensures Distinct(names[..k + 1]) ==
      if names[k] in Distinct(names[..k]) then Distinct(names[..k]) else Distinct(names[..k]) + [names[k]]
  {
    assert names[..k + 1][..k] == names[..k];
  }

  /** A line Parse hands to a reader: not blank, and neither starting nor ending with a
      tab or a space. */
  predicate CleanLine(l: string) {
    l != [] && !IsBlank(l) && l[0] !in TrimChars && l[|l| - 1] !in TrimChars
  }

  lemma TrimCharsWhite()
    ensures forall c :: c in TrimChars ==> IsWhiteSpace(c)
  {
  }

  /** Trimming tabs and spaces keeps a line's other characters, so a non-blank line stays
      non-blank. */
  lemma TrimmedLine(l: string)
    requires !IsBlank(l)
    ensures CleanLine(Trim(l, TrimChars))
  {
    TrimCharsWhite();
    TrimNotBlank(l, TrimChars);
    TrimSpec(l, TrimChars);
  }

  /** The clean-up drops exactly the blank lines and trims the rest. */
  lemma {:induction false} CleanSpec(lines: seq<string>)
    ensures forall k :: 0 <= k < |Clean(lines)| ==> CleanLine(Clean(lines)[k])
    ensures |Clean(lines)| == |lines| - |BlankPositions(lines)|
  {
    if lines != [] {
      var pre := lines[..|lines| - 1];
      var last := lines[|lines| - 1];
      CleanSpec(pre);
      assert BlankPositions(lines) == BlankPositions(pre) + (if IsBlank(last) then [|lines| - 1] else []);
      if !IsBlank(last) {
        TrimmedLine(last);
      }
    }
  }

  /** The clean-up keeps the lines' order: cleaning a concatenation cleans each part. */
  lemma {:induction false} CleanAppend(a: seq<string>, b: seq<string>)
    ensures Clean(a + b) == Clean(a) + Clean(b)
  {
    if b == [] {
      assert a + b == a;
    } else {
      var b' := b[..|b| - 1];
      CleanAppend(a, b');
      assert (a + b)[..|a + b| - 1] == a + b';
      assert (a + b)[|a + b| - 1] == b[|b| - 1];
    }
  }

  /** The clean-up of one line: dropped when blank, trimmed of tabs and spaces otherwise. */
  lemma CleanOne(l: string)
    ensures Clean([l]) == if IsBlank(l) then [] else [Trim(l, TrimChars)]
  {
    assert [l][..0] == [];
  }

  /** The positions of the blank lines. */
  function BlankPositions(lines: seq<string>): (r: seq<nat>)
    ensures |r| <= |lines|
  {
    if lines == [] then []
    else
      var pre := BlankPositions(lines[..|lines| - 1]);
      if IsBlank(lines[|lines| - 1]) then pre + [|lines| - 1] else pre
  }

  /** What every net read from the text satisfies: a non-blank name and at least two
      distinct element names, none of them empty, none holding a separator or the
      character that starts a pin, and none starting with the ground element's prefix. */
  predicate WellFormedNet(f: SchemaFormat, prefix: string, n: Net) {
    !IsBlank(n.Name) && |n.Members| >= 2 && NoDuplicates(n.Members) &&
    forall k :: 0 <= k < |n.Members| ==> MemberName(f, prefix, n.Members[k])
  }

  predicate MemberName(f: SchemaFormat, prefix: string, m: string) {
    m != [] && NameEnd(f) !in m && !StartsWith(m, prefix) &&
    forall i :: 0 <= i < |m| ==> m[i] !in Separators(f)
  }

  /** The net of one statement is well formed. */
  lemma NetOfWellFormed(f: SchemaFormat, line: string, prefix: string)
    requires NetOf(f, line, prefix).Ok? && NetOf(f, line, prefix).value.Some?
    ensures WellFormedNet(f, prefix, NetOf(f, line, prefix).value.value)
  {
    var items := Split(line, Separators(f));
    var rest := Skip1(items);
    var names := ElementNames(f, items);
    DistinctSpec(names);
    forall k | 0 <= k < |names|
      ensures MemberName(f, prefix, names[k])
    {
      var m := names[k];
      assert m == rest[k][..|m|];
      assert !StartsWith(rest[k], prefix);
      forall i | 0 <= i < |m|
        ensures m[i] !in Separators(f)
      {
        assert m[i] == rest[k][i];
      }
    }
    var members := NetOf(f, line, prefix).value.value.Members;
    assert members == Distinct(names);
    forall k | 0 <= k < |members|
      ensures MemberName(f, prefix, members[k])
    {
      assert members[k] in names;
    }
  }

  /** Every net read from a sequence of lines is well formed. */
  lemma {:induction false} NetsFromWellFormed(f: SchemaFormat, lines: seq<string>, index: nat, prefix: string)
    requires NetsFrom(f, lines, index, prefix).Ok?
    ensures forall n :: n in NetsFrom(f, lines, index, prefix).value ==> WellFormedNet(f, prefix, n)
    decreases |lines| - index
  {
    if index < |lines| {
      NetsFromJoined(f, lines, index, prefix);
      var joined := JoinFrom(f, lines, index, lines[index]);
      assert joined.Ok?;
      var line, last := joined.value.0, joined.value.1;
      NetsAtRest(f, lines, index, prefix, line, last);
      NetsFromWellFormed(f, lines, last + 1, prefix);
      NetsAtWellFormed(f, lines, index, prefix, line, last);
    }
  }

  /** A statement that reads without error leaves the nets after it readable too. */
  lemma NetsAtRest(f: SchemaFormat, lines: seq<string>, index: nat, prefix: string, line: string, last: nat)
    requires index <= last < |lines| && NetsAt(f, lines, index, prefix, Ok((line, last))).Ok?
    ensures NetsFrom(f, lines, last + 1, prefix).Ok?
  {
    NetsAtJoined(f, lines, index, prefix, line, last);
  }

  /** A statement read without error adds at most one well-formed net to the nets after it. */
  lemma NetsAtWellFormed(f: SchemaFormat, lines: seq<string>, index: nat, prefix: string, line: string, last: nat)
    requires index <= last < |lines| && NetsAt(f, lines, index, prefix, Ok((line, last))).Ok?
    requires NetsFrom(f, lines, last + 1, prefix).Ok?
    requires forall n :: n in NetsFrom(f, lines, last + 1, prefix).value ==> WellFormedNet(f, prefix, n)
    ensures forall n :: n in NetsAt(f, lines, index, prefix, Ok((line, last))).value ==> WellFormedNet(f, prefix, n)
  {
    NetsAtJoined(f, lines, index, prefix, line, last);
    var net, rest := NetOf(f, line, prefix), NetsFrom(f, lines, last + 1, prefix);
    assert net.Ok?;
    if net.value.Some? {
      NetOfWellFormed(f, line, prefix);
    }
    assert NetsAt(f, lines, index, prefix, Ok((line, last))).value == Found(net.value) + rest.value;
  }

  /** A successful parse yields at least one net, no two nets share a name, and every net
      is well formed. */
  lemma ParsedSpec(lines: seq<string>, prefix: string)
    requires Parsed(lines, prefix).Ok?
    ensures Parsed(lines, prefix).value != [] && NoDuplicates(NetNames(Parsed(lines, prefix).value))
    ensures forall n :: n in Parsed(lines, prefix).value ==> WellFormedNet(FormatOf(Clean(lines)), prefix, n)
  {
    var f := FormatOf(Clean(lines));
    NetsFromWellFormed(f, BodyLines(f, Clean(lines)), 0, prefix);
  }
}
