/**
 The outbound half: requests are sent to the deployment named in a header, under a path that begins with the
 service id.
 */
module Outbound {
  import opened Prelude
  import opened Paths
  import opened LastWriter
  import Gate

  datatype DeployInfo = DeployInfo(id: string, host: string)

  type Deploys = map<string, DeployInfo>

  const TARGET_DEPLOY_NOT_FOUND := Gate.StatusError(404, 40400)

  function IdOf(info: DeployInfo): string {
    info.id
  }

  function AddAll(m: Deploys, infos: seq<DeployInfo>): Deploys {
    PutAll(m, infos, IdOf)
  }

  /** The deployment added last under an id is the one found, if one was added; other ids keep theirs. */
  lemma {:induction false} LookupIsLastAdded(m: Deploys, infos: seq<DeployInfo>, id: string)
    ensures var last := LastOf(infos, IdOf, id);
            Lookup(AddAll(m, infos), id) == if last.Some? then last else Lookup(m, id)
  {
    LookupIsLast(m, infos, IdOf, id);
  }

  /** A deployment is found under its id until another is added under it. */
  lemma AddedIsFound(m: Deploys, infos: seq<DeployInfo>, i: nat)
    requires i < |infos| && forall j :: i < j < |infos| ==> infos[j].id != infos[i].id
    ensures Lookup(AddAll(m, infos), infos[i].id) == Some(infos[i])
  {
    LastIs(infos, IdOf, i);
    LookupIsLastAdded(m, infos, infos[i].id);
  }

  class TLSWrapperHandler {
    var deployIDDeployInfoMap: Deploys

    constructor (idDeployHostMap: map<string, string>)
      ensures deployIDDeployInfoMap == map id | id in idDeployHostMap :: DeployInfo(id, idDeployHostMap[id])
    {
      deployIDDeployInfoMap := map id | id in idDeployHostMap :: DeployInfo(id, idDeployHostMap[id]);
    }

    method AddDeploy(deployInfos: seq<DeployInfo>)
      modifies this
      ensures deployIDDeployInfoMap == AddAll(old(deployIDDeployInfoMap), deployInfos)
    {
      for i := 0 to |deployInfos|
        invariant deployIDDeployInfoMap == AddAll(old(deployIDDeployInfoMap), deployInfos[..i])
      {
        assert deployInfos[..i + 1][..i] == deployInfos[..i];
        deployIDDeployInfoMap := deployIDDeployInfoMap[deployInfos[i].id := deployInfos[i]];
      }
      assert deployInfos[..|deployInfos|] == deployInfos;
    }

    method GetDeployInfo(deployID: string) returns (r: Option<DeployInfo>)
      ensures r == Lookup(deployIDDeployInfoMap, deployID)
    {
      if deployID !in deployIDDeployInfoMap {
        return None;
      }
      r := Some(deployIDDeployInfoMap[deployID]);
    }

    /** Sends the request to its deployment, or rejects it and leaves all but the scheme as it is. */
    method Director(req: Gate.OutgoingRequest) returns (v: Gate.Verdict)
      modifies req
      ensures var id := Gate.Get(req.header, "X-Target-Deploy-Id");
              if id in deployIDDeployInfoMap then
                && v == Gate.Forward
                && req.host == req.urlHost == deployIDDeployInfoMap[id].host
                && req.path == "/" + Gate.Get(req.header, "X-Target-Service-Id") + old(req.path)
                && req.rawPath == ""
              else
                && v == Gate.Reject(Gate.StatusError(404, 40400))
                && unchanged(req`host, req`urlHost, req`path, req`rawPath)
      ensures req.scheme == "https" && req.header == old(req.header)
    {
      req.scheme := "https";
      var targetDeployID := Gate.Get(req.header, Gate.TARGET_DEPLOY);
      var targetServiceID := Gate.Get(req.header, Gate.TARGET_SERVICE);
      var deployInfo := GetDeployInfo(targetDeployID);
      if deployInfo.None? {
        return Gate.Reject(TARGET_DEPLOY_NOT_FOUND);
      }
      req.host := deployInfo.value.host;
      req.urlHost := deployInfo.value.host;
      var apiPath := req.path;
      req.path := [SLASH] + targetServiceID + apiPath;
      req.rawPath := "";
      v := Gate.Forward;
    }
  }

  /** The API that the inbound gate finds for a request is the one reported under the target service id
      followed by the original path. */
  lemma EndToEndApi(r: Gate.Request, path: string)
    requires r.registry.Some?
    requires r.path == OutboundPath(Gate.Get(r.header, Gate.TARGET_SERVICE), path)
    ensures Gate.Api(r) == Lookup(r.registry.value, Gate.Get(r.header, Gate.TARGET_SERVICE) + path)
  {
    OutboundThenInbound(Gate.Get(r.header, Gate.TARGET_SERVICE), path);
    ApiPathIsAfterSlash(r.path);
  }
}
