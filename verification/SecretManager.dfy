/** Google Secret Manager as the adapter sees it: secrets under IDs, each with
    numbered versions of which the newest answers as "latest". */
module SecretManager {
  import opened Outcomes
  import opened Sorting

  newtype byte = b: int | 0 <= b < 256
  type Bytes = seq<byte>

  datatype Code = NotFound | AlreadyExists | FailedPrecondition | Unavailable

  // Version n holds versions[n - 1].
  datatype StoredSecret = StoredSecret(created: int, versions: seq<Bytes>, disabled: set<nat>) {
    function Newest(): nat { |versions| }
  }

  // `down` stands for a service that fails every call.
  datatype Project = Project(secrets: map<string, StoredSecret>, now: int, down: bool)

  // What other writers that never delete may do: create secrets, add versions
  // and disable or enable them. The service may fail or recover meanwhile.
  predicate Grew(a: Project, b: Project) {
    forall id :: id in a.secrets ==>
      && id in b.secrets && b.secrets[id].created == a.secrets[id].created
      && a.secrets[id].versions <= b.secrets[id].versions
  }

  // Who else changes the project between two of our calls: nobody, writers
  // that never delete, or anyone.
  datatype Others = Nobody | Writers | Anyone

  ghost predicate Allowed(others: Others, a: Project, b: Project) {
    match others
    case Nobody => a == b
    case Writers => Grew(a, b)
    case Anyone => true
  }

  // A secret as ListSecrets shows it.
  datatype Summary = Summary(id: string, created: int)

  function IDs(listed: seq<Summary>): seq<string> {
    seq(|listed|, i requires 0 <= i < |listed| => listed[i].id)
  }

  class Client {
    var project: Project
    const others: Others

    constructor (p: Project, others: Others)
      ensures project == p && this.others == others
    {
      project, this.others := p, others;
    }

    // What the others do between two of our calls.
    method Interference()
      modifies this
      ensures Allowed(others, old(project), project)
    {
      var p: Project := *;
      if others.Anyone? || (others.Writers? && Grew(project, p)) {
        project := p;
      }
    }

    method GetSecret(id: string) returns (r: Result<StoredSecret, Code>)
      ensures project.down ==> r == Err(Unavailable)
      ensures !project.down && id !in project.secrets ==> r == Err(NotFound)
      ensures !project.down && id in project.secrets ==> r == Ok(project.secrets[id])
    {
      if project.down {
        return Err(Unavailable);
      }
      if id !in project.secrets {
        return Err(NotFound);
      }
      return Ok(project.secrets[id]);
    }

    method CreateSecret(id: string) returns (r: Result<StoredSecret, Code>)
      modifies this
      ensures old(project).down ==> r == Err(Unavailable) && project == old(project)
      ensures !old(project).down && id in old(project).secrets ==> r == Err(AlreadyExists) && project == old(project)
      ensures !old(project).down && id !in old(project).secrets ==>
                var blank := StoredSecret(old(project).now + 1, [], {});
                r == Ok(blank) && project == Project(old(project).secrets[id := blank], old(project).now + 1, false)
    {
      if project.down {
        return Err(Unavailable);
      }
      if id in project.secrets {
        return Err(AlreadyExists);
      }
      var sec := StoredSecret(project.now + 1, [], {});
      project := Project(project.secrets[id := sec], project.now + 1, false);
      return Ok(sec);
    }

    // Answers with the number of the version added.
    method AddSecretVersion(id: string, data: Bytes) returns (r: Result<nat, Code>)
      modifies this
      ensures old(project).down ==> r == Err(Unavailable) && project == old(project)
      ensures !old(project).down && id !in old(project).secrets ==> r == Err(NotFound) && project == old(project)
      ensures !old(project).down && id in old(project).secrets ==>
                var sec := old(project).secrets[id];
                var more := sec.(versions := sec.versions + [data]);
                r == Ok(more.Newest()) && project == old(project).(secrets := old(project).secrets[id := more])
    {
      if project.down {
        return Err(Unavailable);
      }
      if id !in project.secrets {
        return Err(NotFound);
      }
      var sec := project.secrets[id];
      sec := sec.(versions := sec.versions + [data]);
      project := project.(secrets := project.secrets[id := sec]);
      return Ok(sec.Newest());
    }

    // The latest version's number and whether it is enabled; a disabled one
    // may be refused instead.
    method GetLatest(id: string) returns (r: Result<(nat, bool), Code>)
      ensures project.down ==> r == Err(Unavailable)
      ensures !project.down && (id !in project.secrets || project.secrets[id].versions == []) ==> r == Err(NotFound)
      ensures !project.down && id in project.secrets && project.secrets[id].versions != [] ==>
                var sec := project.secrets[id];
                || r == Ok((sec.Newest(), sec.Newest() !in sec.disabled))
                || (sec.Newest() in sec.disabled && r == Err(FailedPrecondition))
    {
      if project.down {
        return Err(Unavailable);
      }
      if id !in project.secrets || project.secrets[id].versions == [] {
        return Err(NotFound);
      }
      var sec := project.secrets[id];
      var refused: bool := *;
      if sec.Newest() in sec.disabled && refused {
        return Err(FailedPrecondition);
      }
      return Ok((sec.Newest(), sec.Newest() !in sec.disabled));
    }

    // The latest version's number and payload.
    method AccessLatest(id: string) returns (r: Result<(nat, Bytes), Code>)
      ensures project.down ==> r == Err(Unavailable)
      ensures !project.down && (id !in project.secrets || project.secrets[id].versions == []) ==> r == Err(NotFound)
      ensures !project.down && id in project.secrets && project.secrets[id].versions != [] ==>
                var sec := project.secrets[id];
                r == if sec.Newest() in sec.disabled then Err(FailedPrecondition)
                     else Ok((sec.Newest(), sec.versions[sec.Newest() - 1]))
    {
      var latest := GetLatest(id);
      if latest.Err? {
        return Err(latest.error);
      }
      if !latest.value.1 {
        return Err(FailedPrecondition);
      }
      return Ok((latest.value.0, project.secrets[id].versions[latest.value.0 - 1]));
    }

    method DeleteSecret(id: string) returns (r: Result<(), Code>)
      modifies this
      ensures old(project).down ==> r == Err(Unavailable) && project == old(project)
      ensures !old(project).down && id !in old(project).secrets ==> r == Err(NotFound) && project == old(project)
      ensures !old(project).down && id in old(project).secrets ==>
                r == Ok(()) && project == old(project).(secrets := old(project).secrets - {id})
    {
      if project.down {
        return Err(Unavailable);
      }
      if id !in project.secrets {
        return Err(NotFound);
      }
      project := project.(secrets := project.secrets - {id});
      return Ok(());
    }

    // Every secret once, in no particular order.
    method ListSecrets() returns (r: Result<seq<Summary>, Code>)
      ensures project.down ==> r == Err(Unavailable)
      ensures !project.down ==> r.Ok? && Enumerates(IDs(r.value), project.secrets.Keys)
      ensures !project.down ==> forall s :: s in r.value ==>
                s.id in project.secrets && s.created == project.secrets[s.id].created
    {
      if project.down {
        return Err(Unavailable);
      }
      var listed := [];
      var rest := project.secrets.Keys;
      while rest != {}
        invariant rest <= project.secrets.Keys
        invariant Enumerates(IDs(listed), project.secrets.Keys - rest)
        invariant forall s :: s in listed ==>
                    s.id in project.secrets && s.created == project.secrets[s.id].created
        decreases rest
      {
        var id :| id in rest;
        rest := rest - {id};
        var s := Summary(id, project.secrets[id].created);
        assert IDs(listed + [s]) == IDs(listed) + [id];
        assert id !in Members(IDs(listed));
        assert Members(IDs(listed) + [id]) == Members(IDs(listed)) + {id};
        listed := listed + [s];
      }
      return Ok(listed);
    }
  }
}
