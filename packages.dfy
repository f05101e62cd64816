/** The first fix-up of loading a project: every run-time environment
    component is rebound from the package object it was read with to the
    first package of the project's package list that describes the same
    package. */
module Packages {
  import opened Types

  datatype VersionMatchMode = Fixed

  /** A target a package or component is meant for. */
  datatype TargetInfo = TargetInfo(name: string, versionMatchMode: Option<VersionMatchMode>)

  /** What identifies a package when its target list is left out of the
      comparison. */
  datatype PackageKey = PackageKey(name: string, url: string, vendor: string, version: string)

  /** A software pack. Only its target list is ever assigned after it is
      read; None stands for a list not read. */
  class Package {
    const name: string
    const url: string
    const vendor: string
    const version: string
    var targetInfos: Option<seq<TargetInfo>>

    constructor (name: string, url: string, vendor: string, version: string, targetInfos: Option<seq<TargetInfo>>)
      ensures this.name == name && this.url == url && this.vendor == vendor && this.version == version
      ensures this.targetInfos == targetInfos
    {
      this.name, this.url, this.vendor, this.version := name, url, vendor, version;
      this.targetInfos := targetInfos;
    }

    function Key(): PackageKey {
      PackageKey(name, url, vendor, version)
    }
  }

  /** A component of the run-time environment and the package it comes from. */
  class Component {
    const componentClass: string
    const group: string
    const vendor: string
    const version: string
    const condition: string
    const targetInfos: seq<TargetInfo>
    var package: Package?

    constructor (componentClass: string, group: string, vendor: string, version: string, condition: string,
                 package: Package?, targetInfos: seq<TargetInfo>)
      ensures this.componentClass == componentClass && this.group == group && this.vendor == vendor
      ensures this.version == version && this.condition == condition && this.targetInfos == targetInfos
      ensures this.package == package
    {
      this.componentClass, this.group, this.vendor, this.version := componentClass, group, vendor, version;
      this.condition, this.targetInfos := condition, targetInfos;
      this.package := package;
    }
  }

  /** The position of the first package with key `k`, if any. */
  function FirstMatch(ps: seq<Package>, k: PackageKey): (r: Option<nat>)
    ensures r.Some? ==> r.value < |ps| && ps[r.value].Key() == k
    ensures r.Some? ==> forall j :: 0 <= j < r.value ==> ps[j].Key() != k
    ensures r.None? <==> forall j :: 0 <= j < |ps| ==> ps[j].Key() != k
  {
    if ps == [] then None
    else
      match FirstMatch(ps[..|ps| - 1], k)
      case Some(i) => Some(i)
      case None => if ps[|ps| - 1].Key() == k then Some(|ps| - 1) else None
  }

  /** The package a component with key `k` is bound to: the first one with
      that key, or none. */
  function Resolved(ps: seq<Package>, k: PackageKey): (r: Package?)
    ensures r != null ==> r in ps && r.Key() == k
    ensures r == null <==> forall p :: p in ps ==> p.Key() != k
  {
    match FirstMatch(ps, k)
    case Some(i) => ps[i]
    case None => null
  }

  /** The objects the resolution writes to: the components, the package
      objects they were read with, and the packages of the list. */
  function Footprint(components: seq<Component>, packages: seq<Package>): set<object>
    reads set c | c in components :: c
  {
    (set c | c in components :: c as object)
    + (set c | c in components && c.package != null :: c.package as object)
    + (set p | p in packages :: p as object)
  }

  /** The search for one component: each package has its target list
      removed while it is compared with the component's package, whose own
      list has been removed too, and restored afterwards; the first equal
      one is bound. */
  method ResolveOne(component: Component, packages: seq<Package>)
    requires component.package != null && component.package !in packages
    modifies component, component.package, set p | p in packages
    ensures component.package == Resolved(packages, old(component.package).Key())
    ensures old(component.package).targetInfos == None
    ensures forall p :: p in packages ==> p.targetInfos == old(p.targetInfos)
  {
    var cp := component.package;
    component.package := null;
    cp.targetInfos := None;
    var k := 0;
    while k < |packages|
      invariant 0 <= k <= |packages|
      invariant component.package == null
      invariant cp.targetInfos == None
      invariant forall j :: 0 <= j < k ==> packages[j].Key() != cp.Key()
      invariant forall p :: p in packages ==> p.targetInfos == old(p.targetInfos)
    {
      var package := packages[k];
      // the target lists are left out of the comparison by removing them
      var pti := package.targetInfos;
      package.targetInfos := None;
      if cp.Key() == package.Key() && cp.targetInfos == package.targetInfos {
        component.package := package;
        package.targetInfos := pti;
        assert FirstMatch(packages, cp.Key()) == Some(k);
        return;
      }
      package.targetInfos := pti;
      k := k + 1;
    }
  }

  /** The resolution loop: every component in turn. Each component ends
      bound to the first package of the list with the key of the package it
      was read with, or to none; the packages of the list keep their target
      lists, and the package objects the components were read with are left
      without one. */
  method ResolvePackages(components: seq<Component>, packages: seq<Package>)
    requires forall i, j :: 0 <= i < j < |components| ==> components[i] != components[j]
    requires forall c :: c in components ==> c.package != null && c.package !in packages
    modifies Footprint(components, packages)
    ensures forall i :: 0 <= i < |components| ==>
      components[i].package == Resolved(packages, old(components[i].package).Key())
    ensures forall p :: p in packages ==> p.targetInfos == old(p.targetInfos)
    ensures forall i :: 0 <= i < |components| ==> old(components[i].package).targetInfos == None
  {
    for i := 0 to |components|
      invariant forall j :: 0 <= j < |components| ==> old(components[j].package) != null
      invariant forall j :: 0 <= j < i ==>
        components[j].package == Resolved(packages, old(components[j].package).Key())
      invariant forall j :: i <= j < |components| ==> components[j].package == old(components[j].package)
      invariant forall p :: p in packages ==> p.targetInfos == old(p.targetInfos)
      invariant forall j :: 0 <= j < i ==> old(components[j].package).targetInfos == None
    {
      var c := components[i];
      ResolveOne(c, packages);
    }
  }
}
