/** Which configuration owns gobgpd on a node. */
module Election {
  import opened Wrappers
  import opened Text

  datatype ConfigId = ConfigId(namespace: string, name: string)

  /** What the election sees of a configuration; creation times have a granularity of one second. */
  datatype Config = Config(created: nat, id: ConfigId)

  /** configPrecedes. */
  predicate Precedes(a: Config, b: Config) {
    if a.created != b.created then a.created < b.created
    else if a.id.namespace != b.id.namespace then Less(a.id.namespace, b.id.namespace)
    else Less(a.id.name, b.id.name)
  }

  lemma PrecedesIsIrreflexive(a: Config)
    ensures !Precedes(a, a)
  {
    LessIsIrreflexive(a.id.name);
  }

  lemma PrecedesIsTransitive(a: Config, b: Config, c: Config)
    requires Precedes(a, b) && Precedes(b, c)
    ensures Precedes(a, c)
  {
    if a.created == b.created == c.created {
      if a.id.namespace == b.id.namespace == c.id.namespace {
        LessIsTransitive(a.id.name, b.id.name, c.id.name);
      } else if a.id.namespace != b.id.namespace && b.id.namespace != c.id.namespace {
        LessIsTransitive(a.id.namespace, b.id.namespace, c.id.namespace);
        LessIsIrreflexive(a.id.namespace);
      }
    }
  }

  lemma PrecedesIsTotal(a: Config, b: Config)
    requires a.id != b.id
    ensures Precedes(a, b) != Precedes(b, a)
  {
    if a.created == b.created {
      if a.id.namespace == b.id.namespace {
        LessIsTotal(a.id.name, b.id.name);
        if Less(a.id.name, b.id.name) { LessIsAsymmetric(a.id.name, b.id.name); }
      } else {
        LessIsTotal(a.id.namespace, b.id.namespace);
        if Less(a.id.namespace, b.id.namespace) { LessIsAsymmetric(a.id.namespace, b.id.namespace); }
      }
    }
  }

  /** The API server never holds two objects of one name. */
  ghost predicate Distinct(configs: set<Config>) {
    forall a, b :: a in configs && b in configs && a.id == b.id ==> a == b
  }

  /** The configuration that precedes every other one. */
  ghost predicate Owns(owner: Config, configs: set<Config>) {
    owner in configs && forall c :: c in configs && c != owner ==> Precedes(owner, c)
  }

  /** electOwningConfig, for a list in any order: none exactly when there is none, and else the owner. */
  method ElectOwningConfig(configs: seq<Config>) returns (owner: Option<Config>)
    requires Distinct(set c | c in configs)
    ensures owner.None? <==> configs == []
    ensures owner.Some? ==> Owns(owner.value, set c | c in configs)
  {
    owner := None;
    for i := 0 to |configs|
      invariant owner.None? <==> i == 0
      invariant owner.Some? ==> owner.value in configs[..i]
      invariant owner.Some? ==> forall c :: c in configs[..i] && c != owner.value ==> Precedes(owner.value, c)
    {
      assert configs[..i + 1] == configs[..i] + [configs[i]];
      if owner.None? || Precedes(configs[i], owner.value) {
        forall c | i > 0 && c in configs[..i + 1] && c != configs[i] ensures Precedes(configs[i], c) {
          if c != owner.value {
            PrecedesIsTransitive(configs[i], owner.value, c);
          }
        }
        owner := Some(configs[i]);
      } else if configs[i] != owner.value {
        assert configs[i] in (set c | c in configs) && owner.value in (set c | c in configs);
        PrecedesIsTotal(configs[i], owner.value);
      }
    }
    assert configs[..|configs|] == configs;
  }

  /** Every agent that sees the same configurations elects the same owner. */
  lemma OwnerIsUnique(a: Config, b: Config, configs: set<Config>)
    requires Owns(a, configs) && Owns(b, configs)
    ensures a == b
  {
    if a != b {
      PrecedesIsTransitive(a, b, a);
      PrecedesIsIrreflexive(a);
    }
  }

  /** A new configuration takes ownership exactly when it precedes the owner; a strictly later creation
      time excludes that, an equal one does not. */
  lemma AddingChangesOwnerIff(owner: Config, after: Config, added: Config, configs: set<Config>)
    requires Owns(owner, configs) && added !in configs && Distinct(configs + {added})
    requires Owns(after, configs + {added})
    ensures after == if Precedes(added, owner) then added else owner
    ensures added.created > owner.created ==> after == owner
    ensures added.created < owner.created ==> after == added
    ensures added.created == owner.created && Less(added.id.namespace, owner.id.namespace) ==> after == added
    ensures added.created == owner.created && added.id.namespace == owner.id.namespace ==>
              after == if Less(added.id.name, owner.id.name) then added else owner
  {
    assert owner in configs + {added} && added in configs + {added};
    if Precedes(added, owner) {
      forall c | c in configs + {added} && c != added ensures Precedes(added, c) {
        if c != owner {
          PrecedesIsTransitive(added, owner, c);
        }
      }
      OwnerIsUnique(after, added, configs + {added});
    } else {
      PrecedesIsTotal(added, owner);
      OwnerIsUnique(after, owner, configs + {added});
    }
    if Less(added.id.namespace, owner.id.namespace) {
      LessIsIrreflexive(owner.id.namespace);
    }
  }

  /** Removing any others leaves the owner. */
  lemma RemovingOthersKeepsOwner(owner: Config, configs: set<Config>, left: set<Config>)
    requires Owns(owner, configs) && left <= configs && owner in left
    ensures forall after :: Owns(after, left) <==> after == owner
  {
    forall after | Owns(after, left) ensures after == owner {
      OwnerIsUnique(after, owner, left);
    }
  }

  /** There is an owner wherever there is a configuration. */
  lemma {:induction false} SomeoneOwns(configs: set<Config>) returns (owner: Config)
    requires Distinct(configs) && configs != {}
    ensures Owns(owner, configs)
    decreases configs
  {
    owner :| owner in configs;
    if configs != {owner} {
      var other := SomeoneOwns(configs - {owner});
      PrecedesIsTotal(owner, other);
      if Precedes(owner, other) {
        forall c | c in configs && c != owner ensures Precedes(owner, c) {
          if c != other {
            PrecedesIsTransitive(owner, other, c);
          }
        }
      } else {
        owner := other;
      }
    }
  }
}
