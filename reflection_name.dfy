/**
 * Splitting the fully-qualified reflection name `<service>.<method>` given
 * on the command line into the service name and the method name.
 */
module ReflectionName {
  import opened Wrappers
  import opened Text

  datatype ServiceMethod = ServiceMethod(service: string, methodName: string)

  /**
   * `detectServiceMethod`: the split is at the last `.`, so the service
   * keeps every earlier dot; a name without a dot is a format error.
   */
  function DetectServiceMethod(reflectionMethod: string): (r: Result<ServiceMethod>)
    ensures r.Err? <==> '.' !in reflectionMethod
    ensures r.Err? ==> r.msg == "invalid reflection method name: " + reflectionMethod
    ensures r.Ok? ==> r.value.service + "." + r.value.methodName == reflectionMethod
    ensures r.Ok? ==> '.' !in r.value.methodName
  {
    var n := LastIndexOf(reflectionMethod, '.');
    if n < 0 then
      Err("invalid reflection method name: " + reflectionMethod)
    else
      var service := reflectionMethod[0..n];
      var methodName := reflectionMethod[n + 1..];
      assert service + "." + methodName == reflectionMethod;
      Ok(ServiceMethod(service, methodName))
  }

  /**
   * Joining a service and a dot-free method name and splitting again gives
   * both back: the split point is unique once the method part has no dot.
   */
  lemma DetectServiceMethodJoin(service: string, methodName: string)
    requires '.' !in methodName
    ensures DetectServiceMethod(service + "." + methodName) == Ok(ServiceMethod(service, methodName))
  {
    var name := service + "." + methodName;
    var n := LastIndexOf(name, '.');
    assert name[|service|] == '.';
    assert forall k :: n < k < |name| ==> name[k] != '.' by {
      forall k | n < k < |name| ensures name[k] != '.' {
        assert name[k] == name[n + 1..][k - n - 1];
      }
    }
    assert forall k :: |service| < k < |name| ==> name[k] != '.' by {
      forall k | |service| < k < |name| ensures name[k] != '.' {
        assert name[k] == methodName[k - |service| - 1];
      }
    }
    assert name[0..n] == service;
    assert name[n + 1..] == methodName;
  }

  /** The usage example of the command: `test.Test.Echo`. */
  lemma DetectServiceMethodExample()
    ensures DetectServiceMethod("test.Test.Echo") == Ok(ServiceMethod("test.Test", "Echo"))
    ensures DetectServiceMethod("NoDot").Err?
  {
    assert "test.Test.Echo" == "test.Test" + "." + "Echo";
    DetectServiceMethodJoin("test.Test", "Echo");
    assert '.' !in "NoDot";
  }
}
