/** The message lookup functions on their global variables. */
module Gettext {
  import opened Options
  import opened CStrings
  import opened GettextModel
  import GettextRuns

  /** A binding that precedes its successors in the list. */
  lemma EarlyExit(bs: seq<Binding>, i: nat, domainname: string)
    requires Sorted(bs) && i < |bs| && StrCmp(domainname, bs[i].domainname) < 0
    requires BindingOf(bs, domainname) == BindingOf(bs[i..], domainname)
    ensures BindingOf(bs, domainname) == None
  {
    forall b | b in bs[i..]
      ensures b.domainname != domainname
    {
      var j :| i <= j < |bs| && bs[j] == b;
      if i < j {
        StrCmpTransitive(domainname, bs[i].domainname, bs[j].domainname);
      }
      StrCmpEqual(domainname, bs[j].domainname);
    }
  }

  lemma BindingStep(bs: seq<Binding>, i: nat, domainname: string)
    requires i < |bs|
    ensures BindingOf(bs[i..], domainname)
            == if bs[i].domainname == domainname then Some(bs[i]) else BindingOf(bs[i + 1..], domainname)
  {
    assert bs[i..][1..] == bs[i + 1..];
  }

  /** Where a new binding goes in a sorted list. */
  lemma {:induction false} InsertAt(bs: seq<Binding>, b: Binding, i: nat)
    requires i <= |bs|
    requires forall j :: 0 <= j < i ==> StrCmp(b.domainname, bs[j].domainname) > 0
    requires i < |bs| ==> StrCmp(b.domainname, bs[i].domainname) < 0
    ensures InsertBinding(bs, b) == bs[..i] + [b] + bs[i..]
  {
    hide StrCmp;
    if i > 0 {
      InsertAt(bs[1..], b, i - 1);
      assert bs[..i] == [bs[0]] + bs[1..][..i - 1] && bs[i..] == bs[1..][i - 1..];
    }
  }

  lemma InsertSorted(bs: seq<Binding>, b: Binding, i: nat)
    requires i <= |bs| && Sorted(bs)
    requires forall j :: 0 <= j < i ==> StrCmp(b.domainname, bs[j].domainname) > 0
    requires i < |bs| ==> StrCmp(b.domainname, bs[i].domainname) < 0
    ensures Sorted(bs[..i] + [b] + bs[i..])
  {
    var bs' := bs[..i] + [b] + bs[i..];
    forall j, k | 0 <= j < k < |bs'|
      ensures StrCmp(bs'[j].domainname, bs'[k].domainname) < 0
    {
      if j < i && k == i {
        StrCmpFlip(bs[j].domainname, b.domainname);
      } else if j == i && k > i + 1 {
        StrCmpTransitive(b.domainname, bs[i].domainname, bs[k - 1].domainname);
      }
    }
  }

  lemma {:induction false} ReplaceAt(bs: seq<Binding>, b: Binding, i: nat)
    requires i < |bs| && bs[i].domainname == b.domainname
    requires forall j :: 0 <= j < i ==> bs[j].domainname != b.domainname
    ensures ReplaceBinding(bs, b) == bs[i := b] && BindingOf(bs, b.domainname) == Some(bs[i])
  {
    if i > 0 {
      ReplaceAt(bs[1..], b, i - 1);
      assert bs[i := b] == [bs[0]] + bs[1..][i - 1 := b];
    }
  }

  /** Reads the next element of a colon-separated list from `pos` on. */
  method NextElement(value: string, pos: nat) returns (element: string, next: nat)
    requires pos < |value| && value[pos] != ':'
    ensures pos < next <= |value| && element == Head(value[pos..]) && value[next..] == Tail(value[pos..])
  {
    next := pos;
    element := "";
    while next < |value| && value[next] != ':'
      invariant pos <= next <= |value|
      invariant Head(value[pos..]) == element + Head(value[next..]) && Tail(value[pos..]) == Tail(value[next..])
    {
      assert value[next..][1..] == value[next + 1..];
      element := element + [value[next]];
      next := next + 1;
    }
    assert Head(value[next..]) == "";
  }

  /** The directory of a domain, which is the default one for a domain that is not bound. */
  function DirnameOf(w: World, st: State, d: string): Option<string> {
    if d == "" then None
    else
      match BindingOf(st.bindings, d)
      case None => Some(w.default_dirname)
      case Some(b) => Some(b.dirname)
  }

  function CodesetOf(st: State, d: string): Option<string> {
    if d == "" then None
    else
      match BindingOf(st.bindings, d)
      case None => None
      case Some(b) => b.codeset
  }

  /** What is given is in force afterwards, and what is not given stays as it was. */
  lemma BindingInForce(w: World, st: State, d: string, dirname: Option<string>, codeset: Option<string>)
    ensures var st' := SetBinding(w, st, d, dirname, codeset);
            && DirnameOf(w, st', d) == (if d != "" && dirname.Some? then dirname else DirnameOf(w, st, d))
            && CodesetOf(st', d) == (if d != "" && codeset.Some? then codeset else CodesetOf(st, d))
  {
    hide SetBinding;
    GettextRuns.SetBindingLookup(w, st, d, dirname, codeset, d);
    if d == "" { NoDomain(w, st, dirname, codeset); }
  }

  lemma NoDomain(w: World, st: State, dirname: Option<string>, codeset: Option<string>)
    ensures SetBinding(w, st, "", dirname, codeset) == st
  {
  }

  class Intl {
    const w: World
    var current_default_domain: string
    var domain_bindings: seq<Binding>
    var msg_cat_cntr: int
    var root: map<Key, Known>
    var loaded: map<File, Conv>
    var env: Env

    ghost function Abs(): State
      reads this
    {
      State(current_default_domain, domain_bindings, msg_cat_cntr, root, loaded, env)
    }

    /** The bindings are kept in ascending order of their names. */
    ghost predicate Valid()
      reads this
    {
      Sorted(domain_bindings)
    }

    constructor (w: World, env: Env)
      ensures Valid() && Abs() == Initial(env) && this.w == w
    {
      this.w := w;
      this.env := env;
      current_default_domain, domain_bindings, msg_cat_cntr := DEFAULT_DEFAULT_DOMAIN, [], 0;
      root, loaded := map[], map[];
    }

    /** Walks the list until the name is found or passed. */
    method FindBinding(domainname: string) returns (binding: Option<Binding>, i: nat)
      requires Valid()
      ensures binding == BindingOf(domain_bindings, domainname)
      ensures binding.Some? ==> i < |domain_bindings| && domain_bindings[i] == binding.value
      ensures binding.Some? ==> forall j :: 0 <= j < i ==> domain_bindings[j].domainname != domainname
    {
      i := 0;
      assert domain_bindings[0..] == domain_bindings;
      while i < |domain_bindings|
        invariant 0 <= i <= |domain_bindings|
        invariant BindingOf(domain_bindings, domainname) == BindingOf(domain_bindings[i..], domainname)
        invariant forall j :: 0 <= j < i ==> domain_bindings[j].domainname != domainname
      {
        BindingStep(domain_bindings, i, domainname);
        var compare := StrCmp(domainname, domain_bindings[i].domainname);
        StrCmpEqual(domainname, domain_bindings[i].domainname);
        if compare == 0 {
          return Some(domain_bindings[i]), i;
        }
        if compare < 0 {
          EarlyExit(domain_bindings, i, domainname);
          return None, i;
        }
        i := i + 1;
      }
      return None, i;
    }

    /** Enqueues a new binding before the first one with a larger name. */
    method Enqueue(b: Binding)
      requires Valid() && BindingOf(domain_bindings, b.domainname) == None
      modifies this`domain_bindings
      ensures Valid() && domain_bindings == PutBinding(old(domain_bindings), b)
    {
      var bs := domain_bindings;
      forall j | 0 <= j < |bs|
        ensures StrCmp(b.domainname, bs[j].domainname) != 0
      {
        StrCmpEqual(b.domainname, bs[j].domainname);
      }
      if bs == [] || StrCmp(b.domainname, bs[0].domainname) < 0 {
        InsertAt(bs, b, 0);
        InsertSorted(bs, b, 0);
        domain_bindings := [b] + bs;
        assert bs[..0] + [b] + bs[0..] == [b] + bs;
      } else {
        var i := 1;
        while i < |bs| && StrCmp(b.domainname, bs[i].domainname) > 0
          invariant 1 <= i <= |bs|
          invariant forall j :: 0 <= j < i ==> StrCmp(b.domainname, bs[j].domainname) > 0
        {
          i := i + 1;
        }
        InsertAt(bs, b, i);
        InsertSorted(bs, b, i);
        domain_bindings := bs[..i] + [b] + bs[i..];
      }
    }

    /** Overwrites the binding at position `i`. */
    method Overwrite(i: nat, b: Binding)
      requires Valid() && i < |domain_bindings| && domain_bindings[i].domainname == b.domainname
      requires forall j :: 0 <= j < i ==> domain_bindings[j].domainname != b.domainname
      modifies this`domain_bindings
      ensures Valid() && domain_bindings == PutBinding(old(domain_bindings), b)
    {
      ReplaceAt(domain_bindings, b, i);
      domain_bindings := domain_bindings[i := b];
    }

    /** `set_binding_values`; None stands for a null pointer. The directory and the codeset in force
        afterwards are handed back. */
    method SetBindingValues(domainname: string, dirname: Option<string>, codeset: Option<string>)
      returns (dirname1: Option<string>, codeset1: Option<string>)
      requires Valid()
      modifies this`domain_bindings, this`msg_cat_cntr
      ensures Valid() && Abs() == SetBinding(w, old(Abs()), domainname, dirname, codeset)
      ensures dirname1 == DirnameOf(w, Abs(), domainname) && codeset1 == CodesetOf(Abs(), domainname)
    {
      hide PutBinding, Sorted, BindingOf;
      BindingInForce(w, Abs(), domainname, dirname, codeset);
      if domainname == "" {
        return None, None;
      }
      dirname1, codeset1 := dirname, codeset;
      var modified := false;
      var binding, i := FindBinding(domainname);
      if binding.Some? {
        var b := binding.value;
        if dirname.None? {
          dirname1 := Some(b.dirname);
        } else if dirname.value != b.dirname {
          b := b.(dirname := dirname.value);
          modified := true;
        }
        if codeset.None? {
          codeset1 := b.codeset;
        } else if codeset != b.codeset {
          b := b.(codeset := codeset, codeset_cntr := b.codeset_cntr + 1);
          modified := true;
        }
        if modified {
          Overwrite(i, b);
        }
      } else if dirname.None? && codeset.None? {
        dirname1 := Some(w.default_dirname);
      } else {
        dirname1 := Some(if dirname.Some? then dirname.value else w.default_dirname);
        var b := Binding(domainname, if dirname.Some? then dirname.value else w.default_dirname,
                         codeset, if codeset.Some? then 1 else 0);
        Enqueue(b);
        modified := true;
      }
      if modified {
        msg_cat_cntr := msg_cat_cntr + 1;
      }
    }

    /** Returns the directory in force afterwards: the one given, if any. */
    method BindTextDomain(domainname: string, dirname: Option<string>) returns (dirname1: Option<string>)
      requires Valid()
      modifies this`domain_bindings, this`msg_cat_cntr
      ensures Valid() && Abs() == SetBinding(w, old(Abs()), domainname, dirname, None)
      ensures dirname1 == DirnameOf(w, Abs(), domainname)
      ensures domainname != "" && dirname.Some? ==> dirname1 == dirname
    {
      BindingInForce(w, Abs(), domainname, dirname, None);
      var codeset1;
      dirname1, codeset1 := SetBindingValues(domainname, dirname, None);
    }

    /** Returns the codeset in force afterwards: the one given, if any. */
    method BindTextDomainCodeset(domainname: string, codeset: Option<string>) returns (codeset1: Option<string>)
      requires Valid()
      modifies this`domain_bindings, this`msg_cat_cntr
      ensures Valid() && Abs() == SetBinding(w, old(Abs()), domainname, None, codeset)
      ensures codeset1 == CodesetOf(Abs(), domainname)
      ensures domainname != "" && codeset.Some? ==> codeset1 == codeset
    {
      BindingInForce(w, Abs(), domainname, None, codeset);
      var dirname1;
      dirname1, codeset1 := SetBindingValues(domainname, None, codeset);
    }

    method TextDomain(domainname: Option<string>) returns (new_domain: string)
      requires Valid()
      modifies this`current_default_domain, this`msg_cat_cntr
      ensures Valid() && Abs() == GettextModel.TextDomain(old(Abs()), domainname)
              && new_domain == current_default_domain
    {
      if domainname.None? {
        return current_default_domain;
      }
      if domainname.value == "" || domainname.value == DEFAULT_DEFAULT_DOMAIN {
        current_default_domain := DEFAULT_DEFAULT_DOMAIN;
      } else if domainname.value != current_default_domain {
        current_default_domain := domainname.value;
      }
      new_domain := current_default_domain;
      msg_cat_cntr := msg_cat_cntr + 1;
    }

    /** `_nl_find_msg`: loads the catalogue, looks the message up and converts it. */
    method FindMsg(f: File, binding: Option<Binding>, msgid: string) returns (result: Option<string>)
      requires Valid() && binding == BindingOf(domain_bindings, f.domainname)
      modifies this`loaded
      ensures Abs() == LoadConv(old(Abs()), f, w.raw(f, msgid).Some?)
      ensures result == match w.raw(f, msgid)
                        case None => None
                        case Some(raw) => Some(w.convert(f, CharsetFor(Abs(), f), raw))
    {
      if f !in loaded {
        loaded := loaded[f := Conv(CodesetCntr(binding), OutCharset(binding, env))];
      }
      var found := w.raw(f, msgid);
      if found.None? {
        return None;
      }
      if loaded[f].codeset_cntr != CodesetCntr(binding) {
        loaded := loaded[f := Conv(CodesetCntr(binding), OutCharset(binding, env))];
      }
      return Some(w.convert(f, loaded[f].charset, found.value));
    }

    /** The catalogue of a locale name and its successors, in turn. */
    method FindInLocale(dirname: string, locale: string, binding: Option<Binding>, k: Key)
      returns (t: Option<Translation>)
      requires Valid() && binding == BindingOf(domain_bindings, k.domainname)
      modifies this`loaded
      ensures Abs() == VisitVariants(w, old(Abs()), dirname, w.variants(locale), k)
      ensures t == match FindInVariants(w, dirname, w.variants(locale), k)
                   case None => None
                   case Some(f) => Some(Translation(f.file, w.convert(f.file, CharsetFor(Abs(), f.file), f.raw)))
    {
      hide LoadConv, CharsetFor;
      var variants := w.variants(locale);
      var cnt := 0;
      assert variants[0..] == variants;
      while cnt < |variants|
        invariant 0 <= cnt <= |variants| && Valid() && binding == BindingOf(domain_bindings, k.domainname)
        invariant VisitVariants(w, Abs(), dirname, variants[cnt..], k)
                  == VisitVariants(w, old(Abs()), dirname, variants, k)
        invariant FindInVariants(w, dirname, variants[cnt..], k) == FindInVariants(w, dirname, variants, k)
      {
        var f := File(dirname, variants[cnt], k.category, k.domainname);
        assert variants[cnt..][0] == variants[cnt] && variants[cnt..][1..] == variants[cnt + 1..];
        var retval := FindMsg(f, binding, k.msgid);
        if retval.Some? {
          return Some(Translation(f, retval.value));
        }
        cnt := cnt + 1;
      }
      return None;
    }

    /** The loop over the language list. */
    method FindInList(dirname: string, categoryvalue: string, binding: Option<Binding>, k: Key)
      returns (t: Option<Translation>)
      requires Valid() && binding == BindingOf(domain_bindings, k.domainname)
      modifies this`loaded
      ensures Abs() == VisitLocales(w, old(Abs()), dirname, Elements(categoryvalue), k)
      ensures t == match FindInLocales(w, dirname, Elements(categoryvalue), k)
                   case None => None
                   case Some(f) => Some(Translation(f.file, w.convert(f.file, CharsetFor(Abs(), f.file), f.raw)))
    {
      hide VisitVariants, FindInVariants, CharsetFor;
      var pos: nat := 0;
      assert categoryvalue[0..] == categoryvalue;
      while true
        invariant pos <= |categoryvalue| && Valid() && binding == BindingOf(domain_bindings, k.domainname)
        invariant VisitLocales(w, Abs(), dirname, Elements(categoryvalue[pos..]), k)
                  == VisitLocales(w, old(Abs()), dirname, Elements(categoryvalue), k)
        invariant FindInLocales(w, dirname, Elements(categoryvalue[pos..]), k)
                  == FindInLocales(w, dirname, Elements(categoryvalue), k)
        decreases |categoryvalue| - pos
      {
        pos := SkipColons(categoryvalue, pos);
        if pos == |categoryvalue| {
          return None;
        }
        var single_locale, next := NextElement(categoryvalue, pos);
        ghost var rest := Elements(categoryvalue[next..]);
        assert Elements(categoryvalue[pos..]) == [single_locale] + rest;
        assert ([single_locale] + rest)[1..] == rest;
        pos := next;
        if w.secure && WithDir(single_locale) {
          continue;
        }
        if IsC(single_locale) {
          return None;
        }
        var retval := FindInLocale(dirname, single_locale, binding, k);
        if retval.Some? {
          return retval;
        }
      }
    }

    method SkipColons(value: string, pos0: nat) returns (pos: nat)
      requires pos0 <= |value|
      ensures pos0 <= pos <= |value| && Elements(value[pos..]) == Elements(value[pos0..])
      ensures pos < |value| ==> value[pos] != ':'
      ensures Abs() == old(Abs())
    {
      pos := pos0;
      while pos < |value| && value[pos] == ':'
        invariant pos0 <= pos <= |value| && Elements(value[pos..]) == Elements(value[pos0..])
      {
        assert value[pos..][1..] == value[pos + 1..];
        pos := pos + 1;
      }
    }

    /** `dcigettext` with the translation cache. */
    method DcIGettext(q: Query) returns (retval: string)
      requires Valid()
      modifies this`loaded, this`root
      ensures Valid() && (Abs(), retval) == Lookup(w, old(Abs()), q)
    {
      hide VisitLocales, FindInLocales, CharsetFor, Elements;
      var domainname := if q.domainname.Some? then q.domainname.value else current_default_domain;
      var k := Key(q.msgid1, domainname, q.category);
      if k in root && root[k].counter == msg_cat_cntr {
        return Answer(w, q, Some(Translation(root[k].file, root[k].translation)));
      }
      var binding, i := FindBinding(domainname);
      var dirname := w.default_dirname;
      if binding.Some? {
        dirname := binding.value.dirname;
        if !IsAbsolute(dirname) {
          if env.cwd.None? {
            return Answer(w, q, None);
          }
          dirname := env.cwd.value + "/" + dirname;
        }
      }
      var categoryvalue := CategoryValue(env, q.category);
      var t := FindInList(dirname, categoryvalue, binding, k);
      if t.Some? {
        root := root[k := Known(msg_cat_cntr, t.value.file, t.value.text)];
      }
      return Answer(w, q, t);
    }
  }
}
