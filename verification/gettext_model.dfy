/** The state behind `gettext`: bindings, translation cache and loaded catalogues, and what
    `bindtextdomain`, `textdomain` and lookups do to it. */
module GettextModel {
  import opened Options
  import opened CStrings

  /** `struct binding`; `codeset_cntr` counts the changes of the codeset. */
  datatype Binding = Binding(domainname: string, dirname: string, codeset: Option<string>, codeset_cntr: nat)

  /** What the process environment decides: the locale names of a category, the working
      directory (None if it cannot be had) and the character set for output. */
  datatype Env = Env(locales: map<int, string>, cwd: Option<string>, charset: string)

  /** A catalogue file, by the parts of its name. */
  datatype File = File(dirname: string, locale: string, category: int, domainname: string)

  /** What does not change: the files and what is in them, conversion, plural selection. */
  datatype World = World(
    default_dirname: string,
    secure: bool,
    variants: string -> seq<string>,
    raw: (File, string) -> Option<string>,
    convert: (File, string, string) -> string,
    plural: (File, nat, string) -> string)

  /** The converter of a loaded catalogue: its target, and the counter it was made for. */
  datatype Conv = Conv(codeset_cntr: nat, charset: string)

  datatype Key = Key(msgid: string, domainname: string, category: int)

  /** `struct known_translation_t` */
  datatype Known = Known(counter: int, file: File, translation: string)

  datatype State = State(
    default_domain: string,
    bindings: seq<Binding>,
    cntr: int,
    root: map<Key, Known>,
    loaded: map<File, Conv>,
    env: Env)

  const DEFAULT_DEFAULT_DOMAIN := "messages"

  function Initial(env: Env): State {
    State(DEFAULT_DEFAULT_DOMAIN, [], 0, map[], map[], env)
  }

  // ----- Bindings -----

  ghost predicate Sorted(bs: seq<Binding>) {
    forall i, j :: 0 <= i < j < |bs| ==> StrCmp(bs[i].domainname, bs[j].domainname) < 0
  }

  /** The binding of a domain. */
  function BindingOf(bs: seq<Binding>, domainname: string): (r: Option<Binding>)
    ensures r.Some? ==> r.value in bs && r.value.domainname == domainname
    ensures r.None? ==> forall b :: b in bs ==> b.domainname != domainname
  {
    if bs == [] then None
    else if bs[0].domainname == domainname then Some(bs[0])
    else BindingOf(bs[1..], domainname)
  }

  function CodesetCntr(b: Option<Binding>): nat { if b.Some? then b.value.codeset_cntr else 0 }

  /** The character set that a new converter gets. */
  function OutCharset(b: Option<Binding>, env: Env): string {
    if b.Some? && b.value.codeset.Some? then b.value.codeset.value else env.charset
  }

  // ----- The language list -----

  /** The text before the first colon, and the text behind it. */
  function Head(s: string): string {
    if s == "" || s[0] == ':' then "" else [s[0]] + Head(s[1..])
  }

  function Tail(s: string): (r: string)
    ensures |r| + |Head(s)| == |s|
  {
    if s == "" || s[0] == ':' then s else Tail(s[1..])
  }

  /** The non-empty elements of a colon-separated list. */
  function Elements(s: string): seq<string>
    decreases |s|
  {
    if s == "" then []
    else if s[0] == ':' then Elements(s[1..])
    else [Head(s)] + Elements(Tail(s))
  }

  predicate IsC(locale: string) { locale == "C" || locale == "POSIX" }

  /** `IS_PATH_WITH_DIR` */
  predicate WithDir(locale: string) { '/' in locale }

  // ----- The search -----

  datatype Found = Found(file: File, raw: string)

  /** The first file among the variants of a locale name that has the message. */
  function FindInVariants(w: World, dirname: string, variants: seq<string>, k: Key): Option<Found> {
    if variants == [] then None
    else
      var f := File(dirname, variants[0], k.category, k.domainname);
      match w.raw(f, k.msgid)
      case Some(raw) => Some(Found(f, raw))
      case None => FindInVariants(w, dirname, variants[1..], k)
  }

  /** ... among the locale names before the first "C". */
  function FindInLocales(w: World, dirname: string, locales: seq<string>, k: Key): Option<Found> {
    if locales == [] then None
    else if w.secure && WithDir(locales[0]) then FindInLocales(w, dirname, locales[1..], k)
    else if IsC(locales[0]) then None
    else
      match FindInVariants(w, dirname, w.variants(locales[0]), k)
      case Some(f) => Some(f)
      case None => FindInLocales(w, dirname, locales[1..], k)
  }

  predicate IsAbsolute(path: string) { path != "" && path[0] == '/' }

  /** The directory to search; None if the working directory is needed and unknown. */
  function DirectoryOf(w: World, b: Option<Binding>, env: Env): Option<string> {
    match b
    case None => Some(w.default_dirname)
    case Some(b) =>
      if IsAbsolute(b.dirname) then Some(b.dirname)
      else
        match env.cwd
        case None => None
        case Some(cwd) => Some(cwd + "/" + b.dirname)
  }

  function CategoryValue(env: Env, category: int): string {
    if category in env.locales then env.locales[category] else "C"
  }

  /** Where the language-list search finds a message. */
  function Search(w: World, bindings: seq<Binding>, env: Env, k: Key): Option<Found> {
    match DirectoryOf(w, BindingOf(bindings, k.domainname), env)
    case None => None
    case Some(dirname) => FindInLocales(w, dirname, Elements(CategoryValue(env, k.category)), k)
  }

  /** The character set in force for a file: that of its converter, unless the converter is
      still to be made or made anew. */
  function CharsetFor(st: State, f: File): string {
    var b := BindingOf(st.bindings, f.domainname);
    if f in st.loaded && st.loaded[f].codeset_cntr == CodesetCntr(b) then st.loaded[f].charset
    else OutCharset(b, st.env)
  }

  datatype Translation = Translation(file: File, text: string)

  /** What a lookup without the translation cache returns in state `st`. */
  function Uncached(w: World, st: State, k: Key): Option<Translation> {
    match Search(w, st.bindings, st.env, k)
    case None => None
    case Some(f) => Some(Translation(f.file, w.convert(f.file, CharsetFor(st, f.file), f.raw)))
  }

  /** What it returns when nothing was ever loaded. */
  function Fresh(w: World, st: State, k: Key): Option<Translation> {
    Uncached(w, st.(loaded := map[]), k)
  }

  // ----- Lookups -----

  /** `_nl_find_msg` on one file: a catalogue gets its converter when it is loaded, and a new one
      when a message is found and the codeset of the binding has changed. */
  function LoadConv(st: State, f: File, found: bool): State {
    var b := BindingOf(st.bindings, f.domainname);
    if f !in st.loaded || (found && st.loaded[f].codeset_cntr != CodesetCntr(b)) then
      st.(loaded := st.loaded[f := Conv(CodesetCntr(b), OutCharset(b, st.env))])
    else st
  }

  /** The arguments of `dcigettext`; None stands for a null pointer. */
  datatype Query = Query(domainname: Option<string>, msgid1: string, msgid2: string, plural: bool, n: nat,
                         category: int)

  function KeyOf(st: State, q: Query): Key {
    Key(q.msgid1, if q.domainname.Some? then q.domainname.value else st.default_domain, q.category)
  }

  /** The text handed out for a translation, or for none. */
  function Answer(w: World, q: Query, t: Option<Translation>): string {
    match t
    case Some(t) => if q.plural then w.plural(t.file, q.n, t.text) else t.text
    case None => if !q.plural || q.n == 1 then q.msgid1 else q.msgid2
  }

  /** The files that a search loads on its way through the variants of one locale name. */
  function VisitVariants(w: World, st: State, dirname: string, variants: seq<string>, k: Key): State
    decreases |variants|
  {
    if variants == [] then st
    else
      var f := File(dirname, variants[0], k.category, k.domainname);
      if w.raw(f, k.msgid).Some? then LoadConv(st, f, true)
      else VisitVariants(w, LoadConv(st, f, false), dirname, variants[1..], k)
  }

  /** ... and through the list of locale names. */
  function VisitLocales(w: World, st: State, dirname: string, locales: seq<string>, k: Key): State
    decreases |locales|
  {
    if locales == [] then st
    else if w.secure && WithDir(locales[0]) then VisitLocales(w, st, dirname, locales[1..], k)
    else if IsC(locales[0]) then st
    else
      var st1 := VisitVariants(w, st, dirname, w.variants(locales[0]), k);
      if FindInVariants(w, dirname, w.variants(locales[0]), k).Some? then st1
      else VisitLocales(w, st1, dirname, locales[1..], k)
  }

  /** A cached translation that may be used. */
  predicate Hit(st: State, k: Key) { k in st.root && st.root[k].counter == st.cntr }

  function Remember(st: State, k: Key, t: Translation): State {
    st.(root := st.root[k := Known(st.cntr, t.file, t.text)])
  }

  /** `dcigettext`: the new state and the text. */
  function Lookup(w: World, st: State, q: Query): (State, string) {
    var k := KeyOf(st, q);
    if Hit(st, k) then (st, Answer(w, q, Some(Translation(st.root[k].file, st.root[k].translation))))
    else
      match DirectoryOf(w, BindingOf(st.bindings, k.domainname), st.env)
      case None => (st, Answer(w, q, None))
      case Some(dirname) =>
        var locales := Elements(CategoryValue(st.env, k.category));
        var st1 := VisitLocales(w, st, dirname, locales, k);
        match FindInLocales(w, dirname, locales, k)
        case None => (st1, Answer(w, q, None))
        case Some(f) =>
          var t := Translation(f.file, w.convert(f.file, CharsetFor(st1, f.file), f.raw));
          (Remember(st1, k, t), Answer(w, q, Some(t)))
  }

  // ----- bindtextdomain, bind_textdomain_codeset, textdomain -----

  /** `bs` with the new binding `b` in its place. */
  function InsertBinding(bs: seq<Binding>, b: Binding): seq<Binding> {
    if bs == [] || StrCmp(b.domainname, bs[0].domainname) < 0 then [b] + bs
    else [bs[0]] + InsertBinding(bs[1..], b)
  }

  /** `bs` with the binding of `b`'s domain replaced by `b`. */
  function ReplaceBinding(bs: seq<Binding>, b: Binding): seq<Binding> {
    if bs == [] then []
    else if bs[0].domainname == b.domainname then [b] + bs[1..]
    else [bs[0]] + ReplaceBinding(bs[1..], b)
  }

  /** The binding after `dirname` and `codeset` were set, where given. */
  function Rebind(b: Binding, dirname: Option<string>, codeset: Option<string>): Binding {
    var b1 := if dirname.Some? then b.(dirname := dirname.value) else b;
    if codeset.Some? && b.codeset != codeset then b1.(codeset := codeset, codeset_cntr := b.codeset_cntr + 1) else b1
  }

  /** The binding of `d` after `dirname` and `codeset` were set; none is created without need. */
  function BindingAfter(w: World, b: Option<Binding>, d: string, dirname: Option<string>,
                        codeset: Option<string>): Option<Binding> {
    match b
    case Some(b) => Some(Rebind(b, dirname, codeset))
    case None =>
      if dirname.None? && codeset.None? then None
      else Some(Binding(d, if dirname.Some? then dirname.value else w.default_dirname,
                        codeset, if codeset.Some? then 1 else 0))
  }

  /** `bs` with `b` for its domain. */
  function PutBinding(bs: seq<Binding>, b: Binding): seq<Binding> {
    if BindingOf(bs, b.domainname).Some? then ReplaceBinding(bs, b) else InsertBinding(bs, b)
  }

  /** `set_binding_values`: the counter goes up whenever a binding changes or is created. */
  function SetBinding(w: World, st: State, domainname: string, dirname: Option<string>,
                      codeset: Option<string>): State {
    if domainname == "" then st
    else
      var b := BindingOf(st.bindings, domainname);
      var b' := BindingAfter(w, b, domainname, dirname, codeset);
      if b' == b || b'.None? then st
      else st.(bindings := PutBinding(st.bindings, b'.value), cntr := st.cntr + 1)
  }

  /** `textdomain`: every call with a name, even the current one, makes the cache stale. */
  function TextDomain(st: State, domainname: Option<string>): State {
    match domainname
    case None => st
    case Some(name) =>
      st.(default_domain := if name == "" then DEFAULT_DEFAULT_DOMAIN else name, cntr := st.cntr + 1)
  }
}
