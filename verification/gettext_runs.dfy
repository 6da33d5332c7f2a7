/** What the translation cache and the loaded converters keep over whole runs. */
module GettextRuns {
  import opened Options
  import opened CStrings
  import opened GettextModel

  // ----- Bindings -----

  lemma {:induction false} ReplaceFacts(bs: seq<Binding>, b: Binding, d: string)
    requires BindingOf(bs, b.domainname).Some?
    ensures BindingOf(ReplaceBinding(bs, b), d) == if d == b.domainname then Some(b) else BindingOf(bs, d)
    ensures |ReplaceBinding(bs, b)| == |bs|
    ensures forall i :: 0 <= i < |bs| ==> ReplaceBinding(bs, b)[i].domainname == bs[i].domainname
  {
    if bs[0].domainname != b.domainname {
      ReplaceFacts(bs[1..], b, d);
    }
  }

  lemma {:induction false} InsertFacts(bs: seq<Binding>, b: Binding, d: string)
    requires BindingOf(bs, b.domainname).None?
    ensures BindingOf(InsertBinding(bs, b), d) == if d == b.domainname then Some(b) else BindingOf(bs, d)
  {
    if !(bs == [] || StrCmp(b.domainname, bs[0].domainname) < 0) {
      InsertFacts(bs[1..], b, d);
    }
  }

  /** The codeset counter of a binding is 0 exactly while it has no codeset. */
  ghost predicate CountsOk(bs: seq<Binding>) {
    forall b :: b in bs ==> (b.codeset.None? <==> b.codeset_cntr == 0)
  }

  lemma {:induction false} ReplaceMembers(bs: seq<Binding>, b: Binding, x: Binding)
    requires x in ReplaceBinding(bs, b)
    ensures x == b || x in bs
  {
    if bs[0].domainname != b.domainname && x != bs[0] {
      ReplaceMembers(bs[1..], b, x);
    }
  }

  lemma {:induction false} InsertMembers(bs: seq<Binding>, b: Binding, x: Binding)
    requires x in InsertBinding(bs, b)
    ensures x == b || x in bs
  {
    if !(bs == [] || StrCmp(b.domainname, bs[0].domainname) < 0) && x != bs[0] {
      InsertMembers(bs[1..], b, x);
    }
  }

  lemma PutFacts(bs: seq<Binding>, b: Binding, d: string)
    ensures BindingOf(PutBinding(bs, b), d) == if d == b.domainname then Some(b) else BindingOf(bs, d)
  {
    hide InsertBinding, ReplaceBinding;
    if BindingOf(bs, b.domainname).Some? {
      ReplaceFacts(bs, b, d);
    } else {
      InsertFacts(bs, b, d);
    }
  }

  lemma PutMembers(bs: seq<Binding>, b: Binding, x: Binding)
    requires x in PutBinding(bs, b)
    ensures x == b || x in bs
  {
    if BindingOf(bs, b.domainname).Some? {
      ReplaceMembers(bs, b, x);
    } else {
      InsertMembers(bs, b, x);
    }
  }

  lemma SetBindingCounts(w: World, st: State, domainname: string, dirname: Option<string>, codeset: Option<string>)
    requires CountsOk(st.bindings)
    ensures CountsOk(SetBinding(w, st, domainname, dirname, codeset).bindings)
  {
    hide PutBinding;
    var bs, bs' := st.bindings, SetBinding(w, st, domainname, dirname, codeset).bindings;
    forall x | x in bs'
      ensures x.codeset.None? <==> x.codeset_cntr == 0
    {
      if x !in bs {
        PutMembers(bs, BindingAfter(w, BindingOf(bs, domainname), domainname, dirname, codeset).value, x);
      }
    }
  }

  /** Every domain's binding after `set_binding_values`. */
  lemma SetBindingLookup(w: World, st: State, domainname: string, dirname: Option<string>, codeset: Option<string>,
                         d: string)
    ensures BindingOf(SetBinding(w, st, domainname, dirname, codeset).bindings, d)
            == if d == domainname && d != "" then BindingAfter(w, BindingOf(st.bindings, d), d, dirname, codeset)
               else BindingOf(st.bindings, d)
  {
    hide PutBinding;
    var b := BindingAfter(w, BindingOf(st.bindings, domainname), domainname, dirname, codeset);
    if b.Some? {
      PutFacts(st.bindings, b.value, d);
    }
  }

  /** The counter goes up whenever the list of bindings changes. */
  lemma SetBindingBumps(w: World, st: State, domainname: string, dirname: Option<string>, codeset: Option<string>)
    ensures var st' := SetBinding(w, st, domainname, dirname, codeset);
            st' == st || (st' == st.(bindings := st'.bindings, cntr := st.cntr + 1))
  {
    hide PutBinding, BindingOf;
  }

  /** A binding's codeset changes only together with its counter. */
  lemma SetBindingFacts(w: World, st: State, domainname: string, dirname: Option<string>, codeset: Option<string>,
                        d: string)
    requires CountsOk(st.bindings)
    ensures var st' := SetBinding(w, st, domainname, dirname, codeset);
            var b, b' := BindingOf(st.bindings, d), BindingOf(st'.bindings, d);
            && CodesetCntr(b) <= CodesetCntr(b')
            && (CodesetCntr(b) == CodesetCntr(b') ==> OutCharset(b, st.env) == OutCharset(b', st.env))
  {
    hide SetBinding;
    SetBindingLookup(w, st, domainname, dirname, codeset, d);
  }

  // ----- Lookups do not change what lookups find -----

  lemma LoadKeeps(st: State, f: File, found: bool, g: File)
    ensures var st' := LoadConv(st, f, found);
            && CharsetFor(st', g) == CharsetFor(st, g)
            && st' == st.(loaded := st'.loaded)
            && (found ==> f in st'.loaded
                          && st'.loaded[f].codeset_cntr == CodesetCntr(BindingOf(st.bindings, f.domainname)))
  {
  }

  lemma {:induction false} VisitVariantsKeeps(w: World, st: State, dirname: string, variants: seq<string>, k: Key,
                                              g: File)
    ensures var st' := VisitVariants(w, st, dirname, variants, k);
            CharsetFor(st', g) == CharsetFor(st, g) && st' == st.(loaded := st'.loaded)
    decreases |variants|
  {
    hide LoadConv, CharsetFor;
    if variants != [] {
      var f := File(dirname, variants[0], k.category, k.domainname);
      if w.raw(f, k.msgid).Some? {
        LoadKeeps(st, f, true, g);
      } else {
        LoadKeeps(st, f, false, g);
        VisitVariantsKeeps(w, LoadConv(st, f, false), dirname, variants[1..], k, g);
      }
    }
  }

  lemma {:induction false} VisitLocalesKeeps(w: World, st: State, dirname: string, locales: seq<string>, k: Key,
                                             g: File)
    ensures var st' := VisitLocales(w, st, dirname, locales, k);
            CharsetFor(st', g) == CharsetFor(st, g) && st' == st.(loaded := st'.loaded)
    decreases |locales|
  {
    hide VisitVariants, CharsetFor, FindInVariants;
    if locales != [] {
      if w.secure && WithDir(locales[0]) {
        VisitLocalesKeeps(w, st, dirname, locales[1..], k, g);
      } else if !IsC(locales[0]) {
        VisitVariantsKeeps(w, st, dirname, w.variants(locales[0]), k, g);
        if FindInVariants(w, dirname, w.variants(locales[0]), k).None? {
          VisitLocalesKeeps(w, VisitVariants(w, st, dirname, w.variants(locales[0]), k), dirname, locales[1..], k, g);
        }
      }
    }
  }

  /** A lookup changes nothing that a later search depends on. */
  lemma LookupKeepsUncached(w: World, st: State, q: Query, k: Key)
    ensures var st' := Lookup(w, st, q).0;
            && Uncached(w, st', k) == Uncached(w, st, k)
            && st' == st.(loaded := st'.loaded, root := st'.root)
  {
    hide FindInLocales, VisitLocales, CharsetFor;
    var kq := KeyOf(st, q);
    var dir := DirectoryOf(w, BindingOf(st.bindings, kq.domainname), st.env);
    if !Hit(st, kq) && dir.Some? {
      var locales := Elements(CategoryValue(st.env, kq.category));
      match Search(w, st.bindings, st.env, k) {
        case None => VisitLocalesKeeps(w, st, dir.value, locales, kq, File("", "", 0, ""));
        case Some(f) => LookupKeepsCharset(w, st, q, f.file);
      }
    }
  }

  lemma LookupKeepsCharset(w: World, st: State, q: Query, g: File)
    ensures CharsetFor(Lookup(w, st, q).0, g) == CharsetFor(st, g)
    ensures Lookup(w, st, q).0 == st.(loaded := Lookup(w, st, q).0.loaded, root := Lookup(w, st, q).0.root)
  {
    hide FindInLocales, VisitLocales;
    var k := KeyOf(st, q);
    var dir := DirectoryOf(w, BindingOf(st.bindings, k.domainname), st.env);
    if !Hit(st, k) && dir.Some? {
      VisitLocalesKeeps(w, st, dir.value, Elements(CategoryValue(st.env, k.category)), k, g);
    }
  }

  // ----- Runs -----

  datatype Action =
    | Bind(domainname: string, dirname: Option<string>, codeset: Option<string>)
    | SetText(domain: Option<string>)
    | Ask(q: Query)
    | SetEnv(env: Env)

  function Next(w: World, st: State, a: Action): State {
    match a
    case Bind(d, dirname, codeset) => SetBinding(w, st, d, dirname, codeset)
    case SetText(d) => TextDomain(st, d)
    case Ask(q) => Lookup(w, st, q).0
    case SetEnv(env) => st.(env := env)
  }

  function Run(w: World, st: State, acts: seq<Action>): State {
    if acts == [] then st else Next(w, Run(w, st, acts[..|acts| - 1]), acts[|acts| - 1])
  }

  /** The environment has changed and no `textdomain` call has announced it. */
  predicate Unannounced(acts: seq<Action>) {
    if acts == [] then false
    else
      match acts[|acts| - 1]
      case SetEnv(_) => true
      case SetText(Some(_)) => false
      case _ => Unannounced(acts[..|acts| - 1])
  }

  /** All character sets of the environment so far are `charset`. */
  predicate CharsetFixed(acts: seq<Action>, charset: string) {
    forall i :: 0 <= i < |acts| && acts[i].SetEnv? ==> acts[i].env.charset == charset
  }

  ghost predicate CountersOk(st: State) {
    forall k :: k in st.root ==> st.root[k].counter <= st.cntr
  }

  /** A translation that would be handed out from the cache is what a search would give. */
  ghost predicate CacheOk(w: World, st: State) {
    forall k :: Hit(st, k) ==> Uncached(w, st, k) == Some(Translation(st.root[k].file, st.root[k].translation))
  }

  /** A converter that is current for its binding converts to the binding's codeset, if it has
      one; if `strict`, it otherwise converts to the character set of the environment. */
  ghost predicate ConvOk(st: State, strict: bool) {
    forall f :: f in st.loaded ==>
      var b := BindingOf(st.bindings, f.domainname);
      && st.loaded[f].codeset_cntr <= CodesetCntr(b)
      && (st.loaded[f].codeset_cntr == CodesetCntr(b) && (strict || CodesetCntr(b) > 0) ==>
            st.loaded[f].charset == OutCharset(b, st.env))
  }

  /** Looking up returns what a search without the cache returns. */
  lemma LookupAgrees(w: World, st: State, q: Query)
    requires CacheOk(w, st)
    ensures Lookup(w, st, q).1 == Answer(w, q, Uncached(w, st, KeyOf(st, q)))
  {
    hide FindInLocales, VisitLocales, CharsetFor;
    var k := KeyOf(st, q);
    var dir := DirectoryOf(w, BindingOf(st.bindings, k.domainname), st.env);
    if !Hit(st, k) && dir.Some? {
      var locales := Elements(CategoryValue(st.env, k.category));
      match FindInLocales(w, dir.value, locales, k)
      case None =>
      case Some(f) => VisitLocalesKeeps(w, st, dir.value, locales, k, f.file);
    }
  }

  /** What a lookup leaves in the cache. */
  lemma LookupRemembers(w: World, st: State, q: Query, k: Key)
    ensures var st' := Lookup(w, st, q).0;
            && (k in st'.root ==> (k in st.root && st'.root[k] == st.root[k])
                                  || (Uncached(w, st, k).Some? && k == KeyOf(st, q)
                                      && st'.root[k] == Known(st.cntr, Uncached(w, st, k).value.file,
                                                              Uncached(w, st, k).value.text)))
  {
    hide FindInLocales, VisitLocales, CharsetFor;
    var kq := KeyOf(st, q);
    var dir := DirectoryOf(w, BindingOf(st.bindings, kq.domainname), st.env);
    if !Hit(st, kq) && dir.Some? {
      var locales := Elements(CategoryValue(st.env, kq.category));
      match FindInLocales(w, dir.value, locales, kq)
      case None => VisitLocalesKeeps(w, st, dir.value, locales, kq, File("", "", 0, ""));
      case Some(f) => VisitLocalesKeeps(w, st, dir.value, locales, kq, f.file);
    }
  }

  lemma LookupKeepsCache(w: World, st: State, q: Query)
    ensures CountersOk(st) ==> CountersOk(Lookup(w, st, q).0)
    ensures CacheOk(w, st) ==> CacheOk(w, Lookup(w, st, q).0)
  {
    hide Uncached, Lookup;
    var st' := Lookup(w, st, q).0;
    LookupKeepsUncached(w, st, q, KeyOf(st, q));
    forall k | k in st'.root
      ensures CountersOk(st) ==> st'.root[k].counter <= st'.cntr
      ensures CacheOk(w, st) && Hit(st', k) ==>
                Uncached(w, st', k) == Some(Translation(st'.root[k].file, st'.root[k].translation))
    {
      LookupRemembers(w, st, q, k);
      LookupKeepsUncached(w, st, q, k);
    }
  }

  lemma {:induction false} VisitVariantsConv(w: World, st: State, dirname: string, variants: seq<string>, k: Key,
                                             strict: bool)
    requires ConvOk(st, strict)
    ensures ConvOk(VisitVariants(w, st, dirname, variants, k), strict)
    decreases |variants|
  {
    if variants != [] {
      var f := File(dirname, variants[0], k.category, k.domainname);
      if w.raw(f, k.msgid).None? {
        VisitVariantsConv(w, LoadConv(st, f, false), dirname, variants[1..], k, strict);
      }
    }
  }

  lemma {:induction false} VisitLocalesConv(w: World, st: State, dirname: string, locales: seq<string>, k: Key,
                                            strict: bool)
    requires ConvOk(st, strict)
    ensures ConvOk(VisitLocales(w, st, dirname, locales, k), strict)
    decreases |locales|
  {
    hide VisitVariants, FindInVariants, ConvOk;
    if locales != [] {
      if w.secure && WithDir(locales[0]) {
        VisitLocalesConv(w, st, dirname, locales[1..], k, strict);
      } else if !IsC(locales[0]) {
        VisitVariantsConv(w, st, dirname, w.variants(locales[0]), k, strict);
        if FindInVariants(w, dirname, w.variants(locales[0]), k).None? {
          VisitLocalesConv(w, VisitVariants(w, st, dirname, w.variants(locales[0]), k), dirname, locales[1..], k,
                           strict);
        }
      }
    }
  }

  lemma LookupConv(w: World, st: State, q: Query, strict: bool)
    requires ConvOk(st, strict)
    ensures ConvOk(Lookup(w, st, q).0, strict)
  {
    hide VisitLocales, FindInLocales, CharsetFor;
    var k := KeyOf(st, q);
    var dir := DirectoryOf(w, BindingOf(st.bindings, k.domainname), st.env);
    if !Hit(st, k) && dir.Some? {
      VisitLocalesConv(w, st, dir.value, Elements(CategoryValue(st.env, k.category)), k, strict);
    }
  }

  lemma BindConv(w: World, st: State, d: string, dirname: Option<string>, codeset: Option<string>, strict: bool)
    requires ConvOk(st, strict) && CountsOk(st.bindings)
    ensures ConvOk(SetBinding(w, st, d, dirname, codeset), strict)
  {
    hide SetBinding, OutCharset;
    var st' := SetBinding(w, st, d, dirname, codeset);
    SetBindingBumps(w, st, d, dirname, codeset);
    forall f | f in st'.loaded
      ensures var b := BindingOf(st'.bindings, f.domainname);
              && st'.loaded[f].codeset_cntr <= CodesetCntr(b)
              && (st'.loaded[f].codeset_cntr == CodesetCntr(b) && (strict || CodesetCntr(b) > 0) ==>
                    st'.loaded[f].charset == OutCharset(b, st'.env))
    {
      SetBindingFacts(w, st, d, dirname, codeset, f.domainname);
    }
  }

  lemma EnvConv(st: State, env: Env, strict: bool)
    requires ConvOk(st, strict) && CountsOk(st.bindings) && (strict ==> env.charset == st.env.charset)
    ensures ConvOk(st.(env := env), strict)
  {
    var st' := st.(env := env);
    forall f | f in st'.loaded
      ensures var b := BindingOf(st'.bindings, f.domainname);
              && st'.loaded[f].codeset_cntr <= CodesetCntr(b)
              && (st'.loaded[f].codeset_cntr == CodesetCntr(b) && (strict || CodesetCntr(b) > 0) ==>
                    st'.loaded[f].charset == OutCharset(b, st'.env))
    {
      var b := BindingOf(st.bindings, f.domainname);
    }
  }

  /** The invariant of a run. */
  ghost predicate RunInv(w: World, st: State, unannounced: bool, strict: bool) {
    CountersOk(st) && CountsOk(st.bindings) && ConvOk(st, strict) && (!unannounced ==> CacheOk(w, st))
  }

  lemma BindKeepsCache(w: World, st: State, d: string, dirname: Option<string>, codeset: Option<string>)
    requires CountersOk(st) && CountsOk(st.bindings)
    ensures CountersOk(SetBinding(w, st, d, dirname, codeset))
    ensures CacheOk(w, st) ==> CacheOk(w, SetBinding(w, st, d, dirname, codeset))
  {
    hide SetBinding, Uncached;
    SetBindingBumps(w, st, d, dirname, codeset);
  }

  lemma {:induction false} RunKeeps(w: World, env: Env, acts: seq<Action>, strict: bool)
    requires strict ==> CharsetFixed(acts, env.charset)
    ensures RunInv(w, Run(w, Initial(env), acts), Unannounced(acts), strict)
    ensures strict ==> Run(w, Initial(env), acts).env.charset == env.charset
  {
    hide SetBinding, Lookup, Uncached;
    if acts != [] {
      var before := acts[..|acts| - 1];
      assert forall i :: 0 <= i < |before| ==> before[i] == acts[i];
      RunKeeps(w, env, before, strict);
      var st, a := Run(w, Initial(env), before), acts[|acts| - 1];
      match a {
        case Bind(d, dirname, codeset) =>
          SetBindingBumps(w, st, d, dirname, codeset);
          SetBindingCounts(w, st, d, dirname, codeset);
          BindConv(w, st, d, dirname, codeset, strict);
          BindKeepsCache(w, st, d, dirname, codeset);
        case SetText(d) =>
        case Ask(q) =>
          LookupKeepsCache(w, st, q);
          LookupConv(w, st, q, strict);
          LookupKeepsUncached(w, st, q, KeyOf(st, q));
        case SetEnv(e) =>
          EnvConv(st, e, strict);
      }
    }
  }

  /** The cache is invisible: after every history of binding, lookup and environment changes
      whose last environment change was announced by `textdomain`, a lookup returns what a
      search that ignores the cache returns. */
  lemma CacheCoherent(w: World, env: Env, acts: seq<Action>, q: Query)
    requires !Unannounced(acts)
    ensures var st := Run(w, Initial(env), acts);
            Lookup(w, st, q).1 == Answer(w, q, Uncached(w, st, KeyOf(st, q)))
  {
    RunKeeps(w, env, acts, false);
    LookupAgrees(w, Run(w, Initial(env), acts), q);
  }

  /** The converters are invisible as well, as long as the character set of the environment has
      not changed or the domain is bound to a codeset: a lookup returns what it would return if
      no catalogue had been loaded before. */
  lemma ConvertersCoherent(w: World, env: Env, acts: seq<Action>, q: Query)
    requires !Unannounced(acts)
    requires var st := Run(w, Initial(env), acts);
             CharsetFixed(acts, env.charset) || CodesetCntr(BindingOf(st.bindings, KeyOf(st, q).domainname)) > 0
    ensures var st := Run(w, Initial(env), acts);
            Lookup(w, st, q).1 == Answer(w, q, Fresh(w, st, KeyOf(st, q)))
  {
    hide Lookup, Run;
    var st := Run(w, Initial(env), acts);
    CacheCoherent(w, env, acts, q);
    RunKeeps(w, env, acts, CharsetFixed(acts, env.charset));
    FreshAgrees(w, st, KeyOf(st, q), CharsetFixed(acts, env.charset));
  }

  lemma {:induction false} FoundDomain(w: World, dirname: string, variants: seq<string>, k: Key)
    ensures var f := FindInVariants(w, dirname, variants, k);
            f.Some? ==> f.value.file.domainname == k.domainname
  {
    if variants != [] {
      FoundDomain(w, dirname, variants[1..], k);
    }
  }

  lemma {:induction false} SearchDomain(w: World, dirname: string, locales: seq<string>, k: Key)
    ensures var f := FindInLocales(w, dirname, locales, k);
            f.Some? ==> f.value.file.domainname == k.domainname
  {
    if locales != [] {
      FoundDomain(w, dirname, w.variants(locales[0]), k);
      SearchDomain(w, dirname, locales[1..], k);
    }
  }

  lemma FreshAgrees(w: World, st: State, k: Key, strict: bool)
    requires ConvOk(st, strict) && (strict || CodesetCntr(BindingOf(st.bindings, k.domainname)) > 0)
    ensures Uncached(w, st, k) == Fresh(w, st, k)
  {
    var dir := DirectoryOf(w, BindingOf(st.bindings, k.domainname), st.env);
    if dir.Some? {
      SearchDomain(w, dir.value, Elements(CategoryValue(st.env, k.category)), k);
    }
  }

  /** A loaded converter makes a difference in a state: the domain is bound to no codeset, and the text that
      is found converts differently to the character set of the time of loading and to the present one. */
  ghost predicate Stale(w: World, st: State, k: Key) {
    match Search(w, st.bindings, st.env, k)
    case None => false
    case Some(f) =>
      && CodesetCntr(BindingOf(st.bindings, k.domainname)) == 0
      && f.file in st.loaded && st.loaded[f.file].codeset_cntr == 0
      && w.convert(f.file, st.loaded[f.file].charset, f.raw) != w.convert(f.file, st.env.charset, f.raw)
  }

  lemma StaleIff(w: World, st: State, k: Key)
    requires ConvOk(st, false) && CountsOk(st.bindings)
    ensures Uncached(w, st, k) != Fresh(w, st, k) <==> Stale(w, st, k)
  {
    var dir := DirectoryOf(w, BindingOf(st.bindings, k.domainname), st.env);
    if dir.Some? {
      SearchDomain(w, dir.value, Elements(CategoryValue(st.env, k.category)), k);
    }
  }

  /** A changed character set is necessary, but not sufficient: both may give the same text. */
  lemma StaleNeedsChange(w: World, st: State, k: Key)
    requires Stale(w, st, k)
    ensures var f := Search(w, st.bindings, st.env, k).value.file; st.loaded[f].charset != st.env.charset
  {
  }

  // ----- Unannounced changes of the environment -----

  /** The translation that a lookup hands out: the cached one if there is a valid one. */
  function HandedOut(w: World, st: State, k: Key): Option<Translation> {
    if Hit(st, k) then Some(Translation(st.root[k].file, st.root[k].translation)) else Uncached(w, st, k)
  }

  /** Every lookup in every state answers with the translation handed out. */
  lemma LookupHandsOut(w: World, st: State, q: Query)
    ensures Lookup(w, st, q).1 == Answer(w, q, HandedOut(w, st, KeyOf(st, q)))
  {
    hide FindInLocales, VisitLocales, CharsetFor;
    var k := KeyOf(st, q);
    var dir := DirectoryOf(w, BindingOf(st.bindings, k.domainname), st.env);
    if !Hit(st, k) && dir.Some? {
      var locales := Elements(CategoryValue(st.env, k.category));
      match FindInLocales(w, dir.value, locales, k)
      case None =>
      case Some(f) => VisitLocalesKeeps(w, st, dir.value, locales, k, f.file);
    }
  }

  /** The environment of the last search for `k`; a lookup that finds a valid translation does not search. */
  function SearchedIn(w: World, env: Env, acts: seq<Action>, k: Key): Env {
    if acts == [] then env
    else
      var before := acts[..|acts| - 1];
      var st, a := Run(w, Initial(env), before), acts[|acts| - 1];
      if a.Ask? && KeyOf(st, a.q) == k && !Hit(st, k) then st.env else SearchedIn(w, env, before, k)
  }

  /** The file is loaded, and its converter belongs to the present codeset. */
  predicate Current(st: State, f: File) {
    f in st.loaded && st.loaded[f].codeset_cntr == CodesetCntr(BindingOf(st.bindings, f.domainname))
  }

  /** A valid translation is what the search gave in environment `e`, and its file is still current. */
  ghost predicate CachedIn(w: World, st: State, k: Key, e: Env) {
    Hit(st, k) ==>
      && Uncached(w, st.(env := e), k) == Some(Translation(st.root[k].file, st.root[k].translation))
      && Current(st, st.root[k].file)
  }

  /** A current converter stays as it is. */
  lemma LoadCurrent(st: State, f: File, found: bool, g: File)
    requires Current(st, g) || (found && f == g)
    ensures Current(LoadConv(st, f, found), g)
    ensures Current(st, g) ==> LoadConv(st, f, found).loaded[g] == st.loaded[g]
  {
  }

  lemma {:induction false} VisitVariantsCurrent(w: World, st: State, dirname: string, variants: seq<string>, k: Key,
                                                g: File)
    requires Current(st, g) || (var f := FindInVariants(w, dirname, variants, k); f.Some? && f.value.file == g)
    ensures var st' := VisitVariants(w, st, dirname, variants, k);
            Current(st', g) && (Current(st, g) ==> st'.loaded[g] == st.loaded[g])
    decreases |variants|
  {
    hide LoadConv, Current;
    if variants != [] {
      var f := File(dirname, variants[0], k.category, k.domainname);
      if w.raw(f, k.msgid).Some? {
        LoadCurrent(st, f, true, g);
      } else {
        if Current(st, g) { LoadCurrent(st, f, false, g); }
        VisitVariantsCurrent(w, LoadConv(st, f, false), dirname, variants[1..], k, g);
      }
    }
  }

  lemma {:induction false} VisitLocalesCurrent(w: World, st: State, dirname: string, locales: seq<string>, k: Key,
                                               g: File)
    requires Current(st, g) || (var f := FindInLocales(w, dirname, locales, k); f.Some? && f.value.file == g)
    ensures var st' := VisitLocales(w, st, dirname, locales, k);
            Current(st', g) && (Current(st, g) ==> st'.loaded[g] == st.loaded[g])
    decreases |locales|
  {
    hide VisitVariants, FindInVariants, Current;
    if locales != [] {
      if w.secure && WithDir(locales[0]) {
        VisitLocalesCurrent(w, st, dirname, locales[1..], k, g);
      } else if !IsC(locales[0]) {
        var f := FindInVariants(w, dirname, w.variants(locales[0]), k);
        if Current(st, g) || f.Some? {
          VisitVariantsCurrent(w, st, dirname, w.variants(locales[0]), k, g);
        }
        if f.None? {
          VisitLocalesCurrent(w, VisitVariants(w, st, dirname, w.variants(locales[0]), k), dirname, locales[1..], k, g);
        }
      }
    }
  }

  /** What a lookup does to the converter of a file that is current, or that it finds. */
  lemma LookupCurrent(w: World, st: State, q: Query, g: File)
    requires Current(st, g)
             || (!Hit(st, KeyOf(st, q))
                 && var f := Search(w, st.bindings, st.env, KeyOf(st, q)); f.Some? && f.value.file == g)
    ensures var st' := Lookup(w, st, q).0;
            Current(st', g) && (Current(st, g) ==> st'.loaded[g] == st.loaded[g])
  {
    hide VisitLocales, FindInLocales, CharsetFor;
    var k := KeyOf(st, q);
    var dir := DirectoryOf(w, BindingOf(st.bindings, k.domainname), st.env);
    if !Hit(st, k) && dir.Some? {
      VisitLocalesCurrent(w, st, dir.value, Elements(CategoryValue(st.env, k.category)), k, g);
    }
  }

  /** A lookup for another key, or one that hits, keeps what is known of `k`. */
  lemma LookupKeepsCached(w: World, st: State, q: Query, k: Key, e: Env)
    requires CachedIn(w, st, k, e) && (KeyOf(st, q) != k || Hit(st, k))
    ensures CachedIn(w, Lookup(w, st, q).0, k, e)
  {
    hide Lookup, Search;
    var st' := Lookup(w, st, q).0;
    LookupKeepsUncached(w, st, q, k);
    LookupRemembers(w, st, q, k);
    if Hit(st', k) && KeyOf(st, q) != k {
      LookupCurrent(w, st, q, st.root[k].file);
    } else if Hit(st, k) && KeyOf(st, q) == k {
      LookupHit(w, st, q);
    }
  }

  lemma LookupHit(w: World, st: State, q: Query)
    requires Hit(st, KeyOf(st, q))
    ensures Lookup(w, st, q).0 == st
  {
  }

  /** A lookup that searches for `k` leaves what it found. */
  lemma LookupCaches(w: World, st: State, q: Query)
    requires !Hit(st, KeyOf(st, q))
    ensures CachedIn(w, Lookup(w, st, q).0, KeyOf(st, q), st.env)
  {
    hide Lookup, Search, CharsetFor;
    var k, st' := KeyOf(st, q), Lookup(w, st, q).0;
    LookupKeepsUncached(w, st, q, k);
    LookupRemembers(w, st, q, k);
    assert st'.(env := st.env) == st';
    if Hit(st', k) { LookupCurrent(w, st, q, st'.root[k].file); }
  }

  lemma BindKeepsCached(w: World, st: State, d: string, dirname: Option<string>, codeset: Option<string>, k: Key,
                        e: Env)
    requires CountersOk(st) && CachedIn(w, st, k, e)
    ensures CachedIn(w, SetBinding(w, st, d, dirname, codeset), k, e)
  {
    hide SetBinding, Uncached;
    SetBindingBumps(w, st, d, dirname, codeset);
  }

  /** Over every run, with announcements or without, the cache holds what the last search gave. */
  lemma {:induction false} RunCaches(w: World, env: Env, acts: seq<Action>, k: Key)
    ensures CachedIn(w, Run(w, Initial(env), acts), k, SearchedIn(w, env, acts, k))
  {
    hide SetBinding, Lookup, Uncached, CachedIn;
    if acts == [] {
      NothingCached(w, env, k);
    } else {
      var before := acts[..|acts| - 1];
      RunCaches(w, env, before, k);
      RunKeeps(w, env, before, false);
      var st, a := Run(w, Initial(env), before), acts[|acts| - 1];
      match a {
        case Bind(d, dirname, codeset) => BindKeepsCached(w, st, d, dirname, codeset, k, SearchedIn(w, env, before, k));
        case SetText(d) => TextKeepsCached(w, st, d, k, SearchedIn(w, env, before, k));
        case Ask(q) =>
          if KeyOf(st, q) == k && !Hit(st, k) {
            LookupCaches(w, st, q);
          } else {
            LookupKeepsCached(w, st, q, k, SearchedIn(w, env, before, k));
          }
        case SetEnv(e) => EnvKeepsCached(w, st, e, k, SearchedIn(w, env, before, k));
      }
    }
  }

  lemma NothingCached(w: World, env: Env, k: Key)
    ensures CachedIn(w, Initial(env), k, env)
  {
  }

  lemma TextKeepsCached(w: World, st: State, d: Option<string>, k: Key, e: Env)
    requires CountersOk(st) && CachedIn(w, st, k, e)
    ensures CachedIn(w, TextDomain(st, d), k, e)
  {
    hide Uncached;
  }

  lemma EnvKeepsCached(w: World, st: State, env: Env, k: Key, e: Env)
    requires CachedIn(w, st, k, e)
    ensures CachedIn(w, st.(env := env), k, e)
  {
    hide Uncached;
    assert st.(env := env).(env := e) == st.(env := e);
  }

  lemma {:induction false} FoundRaw(w: World, dirname: string, variants: seq<string>, k: Key)
    ensures var f := FindInVariants(w, dirname, variants, k);
            f.Some? ==> w.raw(f.value.file, k.msgid) == Some(f.value.raw)
  {
    if variants != [] {
      FoundRaw(w, dirname, variants[1..], k);
    }
  }

  /** What is found in a file is what the file has for the message. */
  lemma {:induction false} FoundInLocalesRaw(w: World, dirname: string, locales: seq<string>, k: Key)
    ensures var f := FindInLocales(w, dirname, locales, k);
            f.Some? ==> w.raw(f.value.file, k.msgid) == Some(f.value.raw)
  {
    hide FindInVariants;
    if locales != [] {
      FoundRaw(w, dirname, w.variants(locales[0]), k);
      FoundInLocalesRaw(w, dirname, locales[1..], k);
    }
  }

  lemma SearchRaw(w: World, bindings: seq<Binding>, env: Env, k: Key)
    ensures var f := Search(w, bindings, env, k);
            f.Some? ==> w.raw(f.value.file, k.msgid) == Some(f.value.raw)
  {
    hide FindInLocales;
    var dir := DirectoryOf(w, BindingOf(bindings, k.domainname), env);
    if dir.Some? {
      FoundInLocalesRaw(w, dir.value, Elements(CategoryValue(env, k.category)), k);
    }
  }

  /** A valid translation from environment `e` is right in the present one exactly when the search finds the same. */
  lemma CachedRightIff(w: World, st: State, k: Key, e: Env)
    requires Hit(st, k) && CachedIn(w, st, k, e)
    ensures Uncached(w, st, k) == HandedOut(w, st, k)
            <==> Search(w, st.bindings, st.env, k) == Search(w, st.bindings, e, k)
  {
    hide Search;
    SearchRaw(w, st.bindings, e, k);
    SearchRaw(w, st.bindings, st.env, k);
  }

  /** Exactly when the cache is wrong, over every run, with announcements or without: there is a valid
      translation, and the search now finds something else than when it was last done. */
  lemma CacheWrongExactly(w: World, env: Env, acts: seq<Action>, k: Key)
    ensures var st := Run(w, Initial(env), acts);
            HandedOut(w, st, k) != Uncached(w, st, k) <==>
            Hit(st, k) && Search(w, st.bindings, st.env, k) != Search(w, st.bindings, SearchedIn(w, env, acts, k), k)
  {
    hide Search, Uncached, CachedIn, SearchedIn, Run;
    var st := Run(w, Initial(env), acts);
    RunCaches(w, env, acts, k);
    if Hit(st, k) { CachedRightIff(w, st, k, SearchedIn(w, env, acts, k)); }
  }

  /** Exactly when one unannounced change of the environment does harm: the translation is in the cache,
      and the search finds something else in the new environment. The character set plays no part, because
      the file of a valid translation keeps its converter. */
  lemma UnannouncedExactly(w: World, env: Env, acts: seq<Action>, env': Env, k: Key)
    requires !Unannounced(acts)
    ensures var st := Run(w, Initial(env), acts);
            HandedOut(w, st.(env := env'), k) != Uncached(w, st.(env := env'), k) <==>
            Hit(st, k) && Search(w, st.bindings, env', k) != Search(w, st.bindings, st.env, k)
  {
    hide Search, CachedIn, SearchedIn, Run;
    var st := Run(w, Initial(env), acts);
    RunKeeps(w, env, acts, false);
    RunCaches(w, env, acts, k);
    AnnouncedCached(w, st, k, SearchedIn(w, env, acts, k));
    EnvKeepsCached(w, st, env', k, st.env);
    if Hit(st, k) { CachedRightIff(w, st.(env := env'), k, st.env); }
  }

  lemma AnnouncedCached(w: World, st: State, k: Key, e: Env)
    requires CacheOk(w, st) && CachedIn(w, st, k, e)
    ensures CachedIn(w, st, k, st.env)
  {
    hide Uncached;
    assert st.(env := st.env) == st;
  }

  // ----- What a search finds and what a query gets -----

  /** Strings without colons, and not empty, with colons between them; `colons` stand around them. */
  ghost predicate ColonList(s: string, names: seq<string>, colons: seq<string>) {
    && |colons| == |names| + 1
    && (forall i :: 0 <= i < |names| ==> names[i] != "" && forall k :: 0 <= k < |names[i]| ==> names[i][k] != ':')
    && (forall i :: 0 <= i < |colons| ==> forall k :: 0 <= k < |colons[i]| ==> colons[i][k] == ':')
    && (forall i :: 0 < i < |names| ==> colons[i] != "")
    && s == Around(names, colons)
  }

  function Around(names: seq<string>, colons: seq<string>): string
    requires |colons| == |names| + 1
  {
    if names == [] then colons[0] else colons[0] + names[0] + Around(names[1..], colons[1..])
  }

  lemma {:induction false} HeadTail(s: string)
    ensures s == Head(s) + Tail(s) && (forall k :: 0 <= k < |Head(s)| ==> Head(s)[k] != ':')
    ensures Tail(s) == "" || Tail(s)[0] == ':'
  {
    if s != "" && s[0] != ':' { HeadTail(s[1..]); }
  }

  /** The elements of a list are its names. */
  lemma {:induction false} ElementsMeaning(s: string) returns (colons: seq<string>)
    ensures ColonList(s, Elements(s), colons)
    ensures s != "" && s[0] != ':' ==> colons[0] == ""
    decreases |s|
  {
    if s == "" {
      colons := [""];
    } else if s[0] == ':' {
      var cs := ElementsMeaning(s[1..]);
      colons := [":" + cs[0]] + cs[1..];
      ColonBefore(Elements(s), cs, colons);
      assert s == [s[0]] + s[1..];
    } else {
      HeadTail(s);
      var cs := ElementsMeaning(Tail(s));
      colons := [""] + cs;
      assert colons[1..] == cs && Elements(s)[1..] == Elements(Tail(s));
      NamesBefore(s, Tail(s), Head(s), cs);
    }
  }

  lemma ColonBefore(names: seq<string>, cs: seq<string>, colons: seq<string>)
    requires |cs| == |names| + 1 && colons == [":" + cs[0]] + cs[1..]
    ensures Around(names, colons) == ":" + Around(names, cs)
  {
    if names != [] {
      var rest := Around(names[1..], cs[1..]);
      assert colons[1..] == cs[1..];
      Regroup(":", cs[0], names[0], rest);
      assert Around(names, colons) == (":" + cs[0]) + names[0] + rest;
      hide Around;
    }
  }

  lemma Regroup(a: string, b: string, c: string, d: string)
    ensures (a + b) + c + d == a + (b + c + d)
  {
  }

  lemma NamesBefore(s: string, rest: string, name: string, cs: seq<string>)
    requires ColonList(rest, Elements(rest), cs) && s == name + rest && name != ""
    requires (forall k :: 0 <= k < |name| ==> name[k] != ':') && (rest == "" || rest[0] == ':')
    ensures ColonList(s, [name] + Elements(rest), [""] + cs)
  {
    hide Elements;
    var names, colons := [name] + Elements(rest), [""] + cs;
    assert names[1..] == Elements(rest) && colons[1..] == cs;
    assert "" + name + rest == s;
    if Elements(rest) != [] { ColonFirst(rest, Elements(rest), cs); }
  }

  lemma ColonFirst(s: string, names: seq<string>, colons: seq<string>)
    requires ColonList(s, names, colons) && names != [] && (s == "" || s[0] == ':')
    ensures colons[0] != ""
  {
    var x := names[0] + Around(names[1..], colons[1..]);
    assert s == colons[0] + x && x[0] == names[0][0];
  }

  /** The directory of a binding, absolute or below the working directory; without a binding the default one. */
  ghost predicate SearchedDirectory(w: World, bindings: seq<Binding>, env: Env, d: string, dirname: string) {
    if exists b :: b in bindings && b.domainname == d then
      var b := BindingOf(bindings, d);
      && b.Some?
      && if b.value.dirname != "" && b.value.dirname[0] == '/' then dirname == b.value.dirname
         else env.cwd.Some? && dirname == env.cwd.value + "/" + b.value.dirname
    else dirname == w.default_dirname
  }

  predicate Usable(w: World, locale: string) { !(w.secure && '/' in locale) }

  ghost predicate HasMessage(w: World, dirname: string, locale: string, j: nat, k: Key) {
    j < |w.variants(locale)| && w.raw(File(dirname, w.variants(locale)[j], k.category, k.domainname), k.msgid).Some?
  }

  /** The message is in variant `j` of the name `i`, and in no variant before; no `C` or `POSIX` comes before. */
  ghost predicate FoundAt(w: World, dirname: string, names: seq<string>, k: Key, i: nat, j: nat) {
    && i < |names| && Usable(w, names[i]) && HasMessage(w, dirname, names[i], j, k)
    && (forall j' :: 0 <= j' < j ==> !HasMessage(w, dirname, names[i], j', k))
    && (forall i' :: 0 <= i' <= i ==> Usable(w, names[i']) ==> names[i'] != "C" && names[i'] != "POSIX")
    && (forall i', j' :: 0 <= i' < i && 0 <= j' && Usable(w, names[i']) ==> !HasMessage(w, dirname, names[i'], j', k))
  }

  function FoundIn(w: World, dirname: string, locale: string, j: nat, k: Key): Found
    requires j < |w.variants(locale)|
    requires w.raw(File(dirname, w.variants(locale)[j], k.category, k.domainname), k.msgid).Some?
  {
    var f := File(dirname, w.variants(locale)[j], k.category, k.domainname);
    Found(f, w.raw(f, k.msgid).value)
  }

  lemma {:induction false} VariantsFrom(w: World, dirname: string, locale: string, k: Key, j: nat) returns (at: nat)
    requires j <= |w.variants(locale)| && forall j' :: 0 <= j' < j ==> !HasMessage(w, dirname, locale, j', k)
    ensures match FindInVariants(w, dirname, w.variants(locale)[j..], k)
            case Some(f) => HasMessage(w, dirname, locale, at, k) && f == FoundIn(w, dirname, locale, at, k)
                            && forall j' :: 0 <= j' < at ==> !HasMessage(w, dirname, locale, j', k)
            case None => forall j' :: 0 <= j' ==> !HasMessage(w, dirname, locale, j', k)
    decreases |w.variants(locale)| - j
  {
    var vs := w.variants(locale);
    if j == |vs| {
      at := j;
    } else if HasMessage(w, dirname, locale, j, k) {
      at := j;
    } else {
      assert vs[j..][1..] == vs[j + 1..];
      at := VariantsFrom(w, dirname, locale, k, j + 1);
    }
  }

  lemma VariantsMeaning(w: World, dirname: string, locale: string, k: Key) returns (at: nat)
    ensures match FindInVariants(w, dirname, w.variants(locale), k)
            case Some(f) => HasMessage(w, dirname, locale, at, k) && f == FoundIn(w, dirname, locale, at, k)
                            && forall j' :: 0 <= j' < at ==> !HasMessage(w, dirname, locale, j', k)
            case None => forall j' :: 0 <= j' ==> !HasMessage(w, dirname, locale, j', k)
  {
    assert w.variants(locale)[0..] == w.variants(locale);
    at := VariantsFrom(w, dirname, locale, k, 0);
  }

  /** The names before `i` have neither the message nor an end. */
  ghost predicate NotBefore(w: World, dirname: string, names: seq<string>, k: Key, i: nat)
    requires i <= |names|
  {
    && (forall i' :: 0 <= i' < i ==> Usable(w, names[i']) ==> names[i'] != "C" && names[i'] != "POSIX")
    && (forall i', j' :: 0 <= i' < i && 0 <= j' && Usable(w, names[i']) ==> !HasMessage(w, dirname, names[i'], j', k))
  }

  lemma {:induction false} LocalesFrom(w: World, dirname: string, names: seq<string>, k: Key, n: nat)
    returns (i: nat, j: nat)
    requires n <= |names| && NotBefore(w, dirname, names, k, n)
    ensures match FindInLocales(w, dirname, names[n..], k)
            case Some(f) => FoundAt(w, dirname, names, k, i, j) && f == FoundIn(w, dirname, names[i], j, k)
            case None => forall i, j :: !FoundAt(w, dirname, names, k, i, j)
    decreases |names| - n
  {
    hide HasMessage, FindInVariants;
    i, j := n, 0;
    if n < |names| {
      assert names[n..][1..] == names[n + 1..];
      if w.secure && WithDir(names[n]) {
        i, j := LocalesFrom(w, dirname, names, k, n + 1);
      } else if !IsC(names[n]) {
        j := VariantsMeaning(w, dirname, names[n], k);
        if FindInVariants(w, dirname, w.variants(names[n]), k).None? {
          i, j := LocalesFrom(w, dirname, names, k, n + 1);
        }
      }
    }
  }

  ghost predicate SearchGives(w: World, bindings: seq<Binding>, env: Env, k: Key, f: Found, dirname: string, i: nat,
                              j: nat)
  {
    var names := Elements(if k.category in env.locales then env.locales[k.category] else "C");
    && SearchedDirectory(w, bindings, env, k.domainname, dirname) && FoundAt(w, dirname, names, k, i, j)
    && f == FoundIn(w, dirname, names[i], j, k)
  }

  /** What a search finds: the first variant with the message, of the first usable name of the list that has one,
      unless `C` or `POSIX` comes before. */
  lemma SearchMeaning(w: World, bindings: seq<Binding>, env: Env, k: Key, f: Found)
    ensures Search(w, bindings, env, k) == Some(f) <==>
            exists dirname: string, i: nat, j: nat :: SearchGives(w, bindings, env, k, f, dirname, i, j)
  {
    var names := Elements(if k.category in env.locales then env.locales[k.category] else "C");
    var dir := DirectoryOf(w, BindingOf(bindings, k.domainname), env);
    DirectoryMeaning(w, bindings, env, k.domainname);
    hide FoundAt, SearchedDirectory, FindInLocales, DirectoryOf, Elements;
    if dir.Some? {
      assert names[0..] == names;
      Beginning(w, dir.value, names, k);
      var i, j := LocalesFrom(w, dir.value, names, k, 0);
      if Search(w, bindings, env, k) == Some(f) {
        assert SearchGives(w, bindings, env, k, f, dir.value, i, j);
      }
      forall dirname: string, i': nat, j': nat | SearchGives(w, bindings, env, k, f, dirname, i', j')
        ensures Search(w, bindings, env, k) == Some(f)
      {
        assert dirname == dir.value;
        FoundOnce(w, dir.value, names, k, i, j, i', j');
      }
    }
  }

  lemma Beginning(w: World, dirname: string, names: seq<string>, k: Key)
    ensures NotBefore(w, dirname, names, k, 0)
  {
  }

  lemma FoundOnce(w: World, dirname: string, names: seq<string>, k: Key, i: nat, j: nat, i': nat, j': nat)
    requires FoundAt(w, dirname, names, k, i', j')
    ensures FoundAt(w, dirname, names, k, i, j) ==> i' == i && j' == j
  {
    hide HasMessage;
  }

  lemma DirectoryMeaning(w: World, bindings: seq<Binding>, env: Env, d: string)
    ensures forall dirname :: SearchedDirectory(w, bindings, env, d, dirname) <==>
              DirectoryOf(w, BindingOf(bindings, d), env) == Some(dirname)
  {
  }

  /** What a query gets when no translation is cached: the message itself or its plural if nothing is found, and else
      the converted text, or its plural form. */
  lemma LookupText(w: World, st: State, q: Query)
    requires !Hit(st, KeyOf(st, q))
    ensures var d := if q.domainname.Some? then q.domainname.value else st.default_domain;
            var r := Search(w, st.bindings, st.env, Key(q.msgid1, d, q.category));
            && (r.None? && q.plural && q.n != 1 ==> Lookup(w, st, q).1 == q.msgid2)
            && (r.None? && !(q.plural && q.n != 1) ==> Lookup(w, st, q).1 == q.msgid1)
            && (r.Some? ==>
                  var text := w.convert(r.value.file, CharsetFor(st, r.value.file), r.value.raw);
                  Lookup(w, st, q).1 == if q.plural then w.plural(r.value.file, q.n, text) else text)
  {
    hide Lookup, Search, CharsetFor;
    LookupHandsOut(w, st, q);
  }

  /** A translation that was found is cached, and is then handed out without a search. */
  lemma FoundIsCached(w: World, st: State, q: Query)
    ensures var st', k := Lookup(w, st, q).0, KeyOf(st, q);
            && (Hit(st', k) <==> Hit(st, k) || Search(w, st.bindings, st.env, k).Some?)
            && KeyOf(st', q) == k && (Hit(st', k) ==> Lookup(w, st', q).0 == st')
  {
    hide FindInLocales, VisitLocales, CharsetFor, Elements;
    var k := KeyOf(st, q);
    var dir := DirectoryOf(w, BindingOf(st.bindings, k.domainname), st.env);
    if !Hit(st, k) && dir.Some? {
      VisitLocalesKeeps(w, st, dir.value, Elements(CategoryValue(st.env, k.category)), k, File("", "", 0, ""));
    }
  }

  /** What it gets when a valid translation is cached. */
  lemma LookupCached(w: World, st: State, q: Query)
    requires Hit(st, KeyOf(st, q))
    ensures var known := st.root[KeyOf(st, q)];
            Lookup(w, st, q).1 == if q.plural then w.plural(known.file, q.n, known.translation) else known.translation
  {
  }

  /** The character set: that of the loaded converter, if the codeset of the domain has not changed since; else the
      codeset of the domain, and without one the character set of the environment. */
  lemma CharsetMeaning(st: State, f: File)
    ensures var b := BindingOf(st.bindings, f.domainname);
            var changes := if b.Some? then b.value.codeset_cntr else 0;
            && (f in st.loaded && st.loaded[f].codeset_cntr == changes ==> CharsetFor(st, f) == st.loaded[f].charset)
            && (!(f in st.loaded && st.loaded[f].codeset_cntr == changes) ==>
                  && (b.Some? && b.value.codeset.Some? ==> CharsetFor(st, f) == b.value.codeset.value)
                  && (!(b.Some? && b.value.codeset.Some?) ==> CharsetFor(st, f) == st.env.charset))
  {
  }

  // ----- What a lookup loads, and what the other calls do -----

  function FileAt(w: World, dirname: string, locale: string, j: nat, k: Key): File
    requires j < |w.variants(locale)|
  {
    File(dirname, w.variants(locale)[j], k.category, k.domainname)
  }

  /** Variant `j` of a name is looked into, when the search starts at variant `from`. */
  ghost predicate Opened(w: World, dirname: string, locale: string, k: Key, from: nat, j: nat) {
    from <= j < |w.variants(locale)| && forall j' :: from <= j' < j ==> !HasMessage(w, dirname, locale, j', k)
  }

  lemma OpenedBefore(w: World, dirname: string, locale: string, k: Key, from: nat, j: nat)
    requires Opened(w, dirname, locale, k, from, j) && j > from
    ensures !HasMessage(w, dirname, locale, from, k)
  {
  }

  lemma LoadAdds(st: State, f: File, found: bool, g: File)
    ensures g in LoadConv(st, f, found).loaded <==> g in st.loaded || g == f
  {
  }

  lemma {:induction false} VariantsLoad(w: World, st: State, dirname: string, locale: string, k: Key, from: nat,
                                        g: File)
    requires from <= |w.variants(locale)|
    ensures g in VisitVariants(w, st, dirname, w.variants(locale)[from..], k).loaded <==>
            || g in st.loaded
            || exists j: nat :: Opened(w, dirname, locale, k, from, j) && g == FileAt(w, dirname, locale, j, k)
    decreases |w.variants(locale)| - from
  {
    var vs := w.variants(locale);
    hide LoadConv;
    if from < |vs| {
      assert vs[from..][1..] == vs[from + 1..] && vs[from..][0] == vs[from];
      var f, found := FileAt(w, dirname, locale, from, k), HasMessage(w, dirname, locale, from, k);
      assert Opened(w, dirname, locale, k, from, from);
      LoadAdds(st, f, found, g);
      if !found {
        VariantsLoad(w, LoadConv(st, f, false), dirname, locale, k, from + 1, g);
        forall j: nat | Opened(w, dirname, locale, k, from + 1, j) ensures Opened(w, dirname, locale, k, from, j) {
        }
        forall j: nat | Opened(w, dirname, locale, k, from, j) && j > from
          ensures Opened(w, dirname, locale, k, from + 1, j)
        {
        }
      } else {
        forall j: nat | Opened(w, dirname, locale, k, from, j) ensures j == from {
          if j > from { OpenedBefore(w, dirname, locale, k, from, j); }
        }
      }
    }
  }

  /** The search comes to variant `j` of the name `i`, when it starts at the name `from`. */
  ghost predicate Probed(w: World, dirname: string, names: seq<string>, k: Key, from: nat, i: nat, j: nat) {
    && from <= i < |names| && Usable(w, names[i]) && Opened(w, dirname, names[i], k, 0, j)
    && (forall i' :: from <= i' <= i && Usable(w, names[i']) ==> names[i'] != "C" && names[i'] != "POSIX")
    && (forall i', j' :: from <= i' < i && 0 <= j' && Usable(w, names[i']) ==>
          !HasMessage(w, dirname, names[i'], j', k))
  }

  ghost predicate ProbedFile(w: World, dirname: string, names: seq<string>, k: Key, from: nat, g: File) {
    exists i: nat, j: nat :: Probed(w, dirname, names, k, from, i, j) && g == FileAt(w, dirname, names[i], j, k)
  }

  /** No more names are looked at. */
  lemma ProbedNone(w: World, dirname: string, names: seq<string>, k: Key, from: nat, g: File)
    requires from >= |names| || (Usable(w, names[from]) && (names[from] == "C" || names[from] == "POSIX"))
    ensures !ProbedFile(w, dirname, names, k, from, g)
  {
    hide Opened;
  }

  lemma ProbedSkip(w: World, dirname: string, names: seq<string>, k: Key, from: nat, g: File)
    requires from < |names| && !Usable(w, names[from])
    ensures ProbedFile(w, dirname, names, k, from, g) <==> ProbedFile(w, dirname, names, k, from + 1, g)
  {
    hide Opened, HasMessage;
    forall i: nat, j: nat
      ensures Probed(w, dirname, names, k, from, i, j) <==> Probed(w, dirname, names, k, from + 1, i, j)
    {
    }
  }

  /** The variants of one name, and what comes behind it if none of them has the message. */
  lemma ProbedStep(w: World, dirname: string, names: seq<string>, k: Key, from: nat, g: File)
    requires from < |names| && Usable(w, names[from]) && names[from] != "C" && names[from] != "POSIX"
    ensures ProbedFile(w, dirname, names, k, from, g) <==>
            || (exists j: nat :: Opened(w, dirname, names[from], k, 0, j) && g == FileAt(w, dirname, names[from], j, k))
            || ((forall j: nat :: !HasMessage(w, dirname, names[from], j, k))
                && ProbedFile(w, dirname, names, k, from + 1, g))
  {
    hide HasMessage;
    if ProbedFile(w, dirname, names, k, from, g) {
      var i: nat, j: nat :| Probed(w, dirname, names, k, from, i, j) && g == FileAt(w, dirname, names[i], j, k);
      if i > from { assert Probed(w, dirname, names, k, from + 1, i, j); }
    }
    if exists j: nat :: Opened(w, dirname, names[from], k, 0, j) && g == FileAt(w, dirname, names[from], j, k) {
      var j: nat :| Opened(w, dirname, names[from], k, 0, j) && g == FileAt(w, dirname, names[from], j, k);
      assert Probed(w, dirname, names, k, from, from, j);
    }
    if (forall j: nat :: !HasMessage(w, dirname, names[from], j, k)) && ProbedFile(w, dirname, names, k, from + 1, g) {
      var i: nat, j: nat :| Probed(w, dirname, names, k, from + 1, i, j) && g == FileAt(w, dirname, names[i], j, k);
      assert Probed(w, dirname, names, k, from, i, j);
    }
  }

  lemma {:induction false} LocalesLoad(w: World, st: State, dirname: string, names: seq<string>, k: Key, from: nat,
                                       g: File)
    requires from <= |names|
    ensures g in VisitLocales(w, st, dirname, names[from..], k).loaded <==>
            g in st.loaded || ProbedFile(w, dirname, names, k, from, g)
    decreases |names| - from
  {
    hide VisitVariants, FindInVariants, HasMessage, Opened, ProbedFile;
    if from == |names| {
      ProbedNone(w, dirname, names, k, from, g);
    } else {
      var name := names[from];
      assert names[from..][1..] == names[from + 1..] && names[from..][0] == name;
      if w.secure && WithDir(name) {
        ProbedSkip(w, dirname, names, k, from, g);
        LocalesLoad(w, st, dirname, names, k, from + 1, g);
      } else if IsC(name) {
        ProbedNone(w, dirname, names, k, from, g);
      } else {
        ProbedStep(w, dirname, names, k, from, g);
        var at := VariantsMeaning(w, dirname, name, k);
        VariantsLoadAll(w, st, dirname, name, k, g);
        if FindInVariants(w, dirname, w.variants(name), k).None? {
          LocalesLoad(w, VisitVariants(w, st, dirname, w.variants(name), k), dirname, names, k, from + 1, g);
        }
      }
    }
  }

  lemma VariantsLoadAll(w: World, st: State, dirname: string, locale: string, k: Key, g: File)
    ensures g in VisitVariants(w, st, dirname, w.variants(locale), k).loaded <==>
            || g in st.loaded
            || exists j: nat :: Opened(w, dirname, locale, k, 0, j) && g == FileAt(w, dirname, locale, j, k)
  {
    assert w.variants(locale)[0..] == w.variants(locale);
    VariantsLoad(w, st, dirname, locale, k, 0, g);
  }

  /** A lookup that searches loads exactly the files that it comes to. */
  lemma LookupLoads(w: World, st: State, q: Query, dirname: string, g: File)
    requires !Hit(st, KeyOf(st, q))
    requires SearchedDirectory(w, st.bindings, st.env, KeyOf(st, q).domainname, dirname)
    ensures var k := KeyOf(st, q);
            var names := Elements(if k.category in st.env.locales then st.env.locales[k.category] else "C");
            g in Lookup(w, st, q).0.loaded <==> g in st.loaded || ProbedFile(w, dirname, names, k, 0, g)
  {
    hide VisitLocales, FindInLocales, CharsetFor, ProbedFile, Elements, SearchedDirectory, DirectoryOf;
    var k := KeyOf(st, q);
    DirectoryMeaning(w, st.bindings, st.env, k.domainname);
    var names := Elements(CategoryValue(st.env, k.category));
    assert names[0..] == names;
    LocalesLoad(w, st, dirname, names, k, 0, g);
  }

  /** A binding call counts if and only if it changes something, and the codeset has a counter of its own. */
  lemma BindingCounts(w: World, st: State, d: string, dirname: Option<string>, codeset: Option<string>)
    ensures var st' := SetBinding(w, st, d, dirname, codeset);
            var b, b' := BindingOf(st.bindings, d), BindingOf(st'.bindings, d);
            var was := if b.Some? then b.value.codeset else None;
            && (if b' == b then st' == st else st' == st.(bindings := st'.bindings, cntr := st.cntr + 1))
            && CodesetCntr(b') == CodesetCntr(b) + (if d != "" && codeset.Some? && codeset != was then 1 else 0)
  {
    SetBindingLookup(w, st, d, dirname, codeset, d);
    SetBindingBumps(w, st, d, dirname, codeset);
    hide PutBinding;
  }

  /** `textdomain` with a name counts, even if the name is the old one, and a query without a domain is then a query
      for this domain; the empty name stands for the default one. Without a name nothing changes. */
  lemma TextDomainMeaning(w: World, st: State, name: string, q: Query)
    requires q.domainname.None?
    ensures var st' := TextDomain(st, Some(name));
            && st'.cntr == st.cntr + 1 && st'.bindings == st.bindings && st'.root == st.root
            && Lookup(w, st', q) == Lookup(w, st', q.(domainname := Some(if name == "" then "messages" else name)))
    ensures TextDomain(st, None) == st
  {
    hide VisitLocales, FindInLocales, CharsetFor, Elements, DirectoryOf;
  }

  // ----- Stale converters -----

  /** Exactly when the converters that are remembered make a difference: over every run whose changes of the
      environment are announced, a lookup hands out something else than if nothing had been loaded before exactly
      when a text is found whose domain is bound to no codeset, whose file was loaded for none, and which converts
      differently to the character set of that time and to the present one. */
  lemma StaleExactly(w: World, env: Env, acts: seq<Action>, k: Key)
    requires !Unannounced(acts)
    ensures var st := Run(w, Initial(env), acts);
            var r := Search(w, st.bindings, st.env, k);
            HandedOut(w, st, k) != Fresh(w, st, k) <==>
            && r.Some? && CodesetCntr(BindingOf(st.bindings, k.domainname)) == 0
            && r.value.file in st.loaded && st.loaded[r.value.file].codeset_cntr == 0
            && w.convert(r.value.file, st.loaded[r.value.file].charset, r.value.raw)
               != w.convert(r.value.file, st.env.charset, r.value.raw)
  {
    hide Search, Run, Fresh, Uncached;
    var st := Run(w, Initial(env), acts);
    RunKeeps(w, env, acts, false);
    StaleIff(w, st, k);
  }

  // ----- What a caller sees -----

  /** The text that a query gets in state `st` for what a search has found. */
  function TextFor(w: World, st: State, q: Query, found: Option<Found>): string {
    match found
    case None => Answer(w, q, None)
    case Some(f) => Answer(w, q, Some(Translation(f.file, w.convert(f.file, CharsetFor(st, f.file), f.raw))))
  }

  lemma CachedText(w: World, st: State, q: Query, e: Env)
    requires Hit(st, KeyOf(st, q)) && CachedIn(w, st, KeyOf(st, q), e)
    ensures Answer(w, q, HandedOut(w, st, KeyOf(st, q))) == TextFor(w, st, q, Search(w, st.bindings, e, KeyOf(st, q)))
  {
    hide Search, Answer;
  }

  lemma UncachedText(w: World, st: State, q: Query)
    ensures Answer(w, q, Uncached(w, st, KeyOf(st, q)))
            == TextFor(w, st, q, Search(w, st.bindings, st.env, KeyOf(st, q)))
  {
    hide Search, Answer, CharsetFor;
  }

  /** Exactly when the text that a caller gets is wrong, over every run: there is a valid translation, and the
      search now finds something with another text than what it found when it was last done. */
  lemma AnswerWrongExactly(w: World, env: Env, acts: seq<Action>, q: Query)
    ensures var st := Run(w, Initial(env), acts);
            var k := KeyOf(st, q);
            Lookup(w, st, q).1 != Answer(w, q, Uncached(w, st, k)) <==>
            && Hit(st, k)
            && TextFor(w, st, q, Search(w, st.bindings, st.env, k))
               != TextFor(w, st, q, Search(w, st.bindings, SearchedIn(w, env, acts, k), k))
  {
    hide Search, Uncached, CachedIn, SearchedIn, Run, Lookup, Answer, TextFor;
    var st := Run(w, Initial(env), acts);
    var k := KeyOf(st, q);
    RunCaches(w, env, acts, k);
    LookupHandsOut(w, st, q);
    UncachedText(w, st, q);
    if Hit(st, k) { CachedText(w, st, q, SearchedIn(w, env, acts, k)); }
  }

  // ----- Why the announcement and the codeset matter -----

  /** One catalogue for every locale name; it says which character set was asked for. */
  function OneFileWorld(): World {
    World("/l", false, (l: string) => [l], (f: File, m: string) => Some(f.locale),
          (f: File, c: string, raw: string) => raw + c, (f: File, n: nat, t: string) => t)
  }

  const QUERY := Query(Some("d"), "m", "m", false, 1, 0)

  lemma ElementsOne(c: char)
    requires c != ':'
    ensures Elements([c]) == [[c]]
  {
    assert Head([c]) == [c] && Tail([c]) == "";
  }

  lemma SearchOne(env: Env, c: char)
    requires c != ':' && c != 'C' && env.locales == map[0 := [c]]
    ensures Search(OneFileWorld(), [], env, Key("m", "d", 0)) == Some(Found(File("/l", [c], 0, "d"), [c]))
  {
    ElementsOne(c);
    var w := OneFileWorld();
    var f := File("/l", [c], 0, "d");
    assert w.variants([c]) == [[c]];
    assert FindInVariants(w, "/l", [[c]], Key("m", "d", 0)) == Some(Found(f, [c]));
    assert FindInLocales(w, "/l", [[c]], Key("m", "d", 0)) == Some(Found(f, [c]));
  }

  /** The state after the first lookup. */
  lemma FirstLookup(env: Env, c: char)
    requires c != ':' && c != 'C' && env.locales == map[0 := [c]]
    ensures var f := File("/l", [c], 0, "d");
            Lookup(OneFileWorld(), Initial(env), QUERY)
            == (Initial(env).(loaded := map[f := Conv(0, env.charset)],
                              root := map[Key("m", "d", 0) := Known(0, f, [c] + env.charset)]),
                [c] + env.charset)
  {
    SearchOne(env, c);
    ElementsOne(c);
    var w, st, k := OneFileWorld(), Initial(env), Key("m", "d", 0);
    var f := File("/l", [c], 0, "d");
    assert w.variants([c]) == [[c]];
    var st1 := VisitLocales(w, st, "/l", [[c]], k);
    assert VisitVariants(w, st, "/l", [[c]], k) == LoadConv(st, f, true);
    assert st1.loaded == map[f := Conv(0, env.charset)];
  }

  /** Without a `textdomain` call a changed language list is not noticed. */
  lemma UnannouncedChange()
    ensures var e1, e2 := Env(map[0 := "x"], None, "u"), Env(map[0 := "y"], None, "u");
            var w, st := OneFileWorld(), Run(OneFileWorld(), Initial(e1), [Ask(QUERY), SetEnv(e2)]);
            Lookup(w, st, QUERY).1 == "xu" && Answer(w, QUERY, Uncached(w, st, KeyOf(st, QUERY))) == "yu"
  {
    var e1, e2 := Env(map[0 := "x"], None, "u"), Env(map[0 := "y"], None, "u");
    FirstLookup(e1, 'x');
    SearchOne(e2, 'y');
    var acts := [Ask(QUERY), SetEnv(e2)];
    assert acts[..1] == [Ask(QUERY)] && [Ask(QUERY)][..0] == [];
    assert Run(OneFileWorld(), Initial(e1), acts[..1]) == Lookup(OneFileWorld(), Initial(e1), QUERY).0;
  }

  /** `textdomain` makes the cache stale but not the converters: a changed character set of the
      environment is not noticed by a domain that is bound to no codeset. */
  lemma UnboundCharsetChange()
    ensures var e1, e2 := Env(map[0 := "x"], None, "u"), Env(map[0 := "x"], None, "v");
            var acts := [Ask(QUERY), SetEnv(e2), SetText(Some("d"))];
            var w, st := OneFileWorld(), Run(OneFileWorld(), Initial(e1), acts);
            Lookup(w, st, QUERY).1 == "xu" && Answer(w, QUERY, Fresh(w, st, KeyOf(st, QUERY))) == "xv"
  {
    var e1, e2 := Env(map[0 := "x"], None, "u"), Env(map[0 := "x"], None, "v");
    FirstLookup(e1, 'x');
    SearchOne(e2, 'x');
    var acts := [Ask(QUERY), SetEnv(e2), SetText(Some("d"))];
    var w := OneFileWorld();
    assert acts[..2] == [Ask(QUERY), SetEnv(e2)] && acts[..2][..1] == [Ask(QUERY)] && [Ask(QUERY)][..0] == [];
    assert Run(w, Initial(e1), [Ask(QUERY)]) == Lookup(w, Initial(e1), QUERY).0;
    assert Run(w, Initial(e1), acts[..2]) == Lookup(w, Initial(e1), QUERY).0.(env := e2);
    CacheCoherent(w, e1, acts, QUERY);
  }
}
