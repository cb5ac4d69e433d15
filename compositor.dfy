/**
 * The video compositor (OBS) as the signage core sees it through its
 * wrapper: a set of scene names, a set of input names, and the requests
 * issued so far.  The wrapper swallows every error and reports it only as
 * a `false` result the core ignores, so a request either takes effect or
 * leaves the state as it was; it never interrupts the caller.
 */
module Compositing {
  import opened Sorting

  /** A state-changing request sent to the compositor. */
  datatype Request =
    | CreateScene(scene: string)
    | RemoveScene(scene: string)
    | CreateInput(scene: string, input: string, kind: string)
    | RemoveInput(input: string)
    | SetInputMute(input: string, muted: bool)
    | SetProgramScene(scene: string)

  /** `RemoveScene` for each name, in order. */
  function SceneRemovals(names: seq<string>): (r: seq<Request>)
    ensures |r| == |names|
    ensures forall i :: 0 <= i < |names| ==> r[i] == RemoveScene(names[i])
  {
    if names == [] then [] else SceneRemovals(names[..|names| - 1]) + [RemoveScene(names[|names| - 1])]
  }

  /** `RemoveInput` for each name, in order. */
  function InputRemovals(names: seq<string>): (r: seq<Request>)
    ensures |r| == |names|
    ensures forall i :: 0 <= i < |names| ==> r[i] == RemoveInput(names[i])
  {
    if names == [] then [] else InputRemovals(names[..|names| - 1]) + [RemoveInput(names[|names| - 1])]
  }

  class Compositor {
    var scenes: set<string>
    var inputs: set<string>
    /** Every request issued, in order. */
    ghost var trace: seq<Request>

    constructor (scenes0: set<string>, inputs0: set<string>)
      ensures scenes == scenes0 && inputs == inputs0 && trace == []
    {
      scenes := scenes0;
      inputs := inputs0;
      trace := [];
    }

    /** Creating an existing scene fails and changes nothing. */
    method CreateScene(name: string)
      modifies this
      ensures scenes == old(scenes) + {name} && inputs == old(inputs)
      ensures trace == old(trace) + [Request.CreateScene(name)]
    {
      scenes := scenes + {name};
      trace := trace + [Request.CreateScene(name)];
    }

    /** Removing a missing scene fails and changes nothing. */
    method RemoveScene(name: string)
      modifies this
      ensures scenes == old(scenes) - {name} && inputs == old(inputs)
      ensures trace == old(trace) + [Request.RemoveScene(name)]
    {
      scenes := scenes - {name};
      trace := trace + [Request.RemoveScene(name)];
    }

    /** An input is added to an existing scene; into a missing scene the
        request fails.  A name already taken keeps its existing input. */
    method CreateInput(scene: string, name: string, kind: string)
      modifies this
      ensures scenes == old(scenes)
      ensures inputs == if scene in old(scenes) then old(inputs) + {name} else old(inputs)
      ensures trace == old(trace) + [Request.CreateInput(scene, name, kind)]
    {
      if scene in scenes {
        inputs := inputs + {name};
      }
      trace := trace + [Request.CreateInput(scene, name, kind)];
    }

    method RemoveInput(name: string)
      modifies this
      ensures scenes == old(scenes) && inputs == old(inputs) - {name}
      ensures trace == old(trace) + [Request.RemoveInput(name)]
    {
      inputs := inputs - {name};
      trace := trace + [Request.RemoveInput(name)];
    }

    method SetInputMute(name: string, muted: bool)
      modifies this
      ensures scenes == old(scenes) && inputs == old(inputs)
      ensures trace == old(trace) + [Request.SetInputMute(name, muted)]
    {
      trace := trace + [Request.SetInputMute(name, muted)];
    }

    method SetProgramScene(name: string)
      modifies this
      ensures scenes == old(scenes) && inputs == old(inputs)
      ensures trace == old(trace) + [Request.SetProgramScene(name)]
    {
      trace := trace + [Request.SetProgramScene(name)];
    }

    /** The scene names, each once, in the compositor's own order. */
    method GetSceneList() returns (names: seq<string>)
      ensures forall n :: n in names <==> n in scenes
      ensures forall i, j :: 0 <= i < j < |names| ==> names[i] != names[j]
    {
      names := ListOf(scenes);
    }

    /** The input names, each once, in the compositor's own order. */
    method GetInputList() returns (names: seq<string>)
      ensures forall n :: n in names <==> n in inputs
      ensures forall i, j :: 0 <= i < j < |names| ==> names[i] != names[j]
    {
      names := ListOf(inputs);
    }
  }
}
