/** The instance/class protocol of protocol.c: a class records its signature, name,
    superclass, level in the hierarchy and a display of the class ids of itself and its
    ancestors indexed by level; an instance points at its class. */
module Protocol {
  import opened MpmTypes

  /** The number of levels a class hierarchy may have: the length of every display. */
  const ClassDEPTH: nat := 8
  /** Class ids; zero marks an unused display entry. */
  const ClassIdInvalid: nat := 0
  const ClassIdInst: nat := 1
  /** One more than the greatest class id. */
  const ClassIdLIMIT: nat := 64
  /** SIGnature of a protocol class. */
  const InstClassSig: nat := 0x519B1452

  class InstClass {
    var sig: nat
    /** The class name; None stands for a NULL name pointer. */
    var name: Option<string>
    var superclass: InstClass?
    var level: nat
    /** The class ids of this class and its ancestors, indexed by level. */
    const display: array<nat>

    /** Storage for a class whose fields are not yet set. */
    constructor Blank()
      ensures display.Length == ClassDEPTH && fresh(display)
    {
      display := new nat[ClassDEPTH];
    }

    /** The static invalidClassStruct that finished instances point at. */
    constructor Invalid()
      ensures IsInvalidClass(this) && fresh(display)
    {
      sig := SigInvalid;
      name := Some("Invalid");
      level := ClassIdInvalid;
      display := new nat[ClassDEPTH](i => if i == 0 then ClassIdInvalid else 0);
      new;
      superclass := this;
    }
  }

  class Inst {
    /** The class pointer (the field `class` of the structure). */
    var klass: InstClass?
  }

  /** What InstClassCheck accepts: a non-null class with the class signature and a name, whose
      level is below ClassDEPTH, whose display entries up to the level are class ids (non-zero
      and below ClassIdLIMIT) and whose later entries are zero. */
  predicate ClassValid(c: InstClass?)
    reads c, if c != null then {c.display} else {}
  {
    && c != null
    && c.display.Length == ClassDEPTH
    && c.sig == InstClassSig
    && c.name.Some?
    && c.level < ClassDEPTH
    && (forall i :: 0 <= i <= c.level ==> c.display[i] != 0 && c.display[i] < ClassIdLIMIT)
    && (forall i :: c.level < i < ClassDEPTH ==> c.display[i] == 0)
  }

  /** The field values the root class initialiser gives the class Inst. */
  predicate IsRootClass(c: InstClass)
    reads c, c.display
  {
    && c.sig == InstClassSig
    && c.name == Some("Inst")
    && c.superclass == c
    && c.level == 0
    && c.display.Length == ClassDEPTH
    && c.display[0] == ClassIdInst
    && (forall i :: 0 < i < ClassDEPTH ==> c.display[i] == 0)
  }

  /** The field values of invalidClassStruct. */
  predicate IsInvalidClass(c: InstClass)
    reads c, c.display
  {
    && c.sig == SigInvalid
    && c.name == Some("Invalid")
    && c.superclass == c
    && c.level == ClassIdInvalid
    && c.display.Length == ClassDEPTH
    && c.display[0] == ClassIdInvalid
    && (forall i :: 0 < i < ClassDEPTH ==> c.display[i] == 0)
  }

  /** An instance passes InstCheck exactly when its class passes InstClassCheck. */
  predicate InstValid(inst: Inst)
    reads inst, inst.klass, if inst.klass != null then {inst.klass.display} else {}
  {
    ClassValid(inst.klass)
  }

  /** InstClassCheck: the signature, the name and the level, then the two scans of the display. */
  method InstClassCheck(c: InstClass?) returns (ok: bool)
    requires c != null ==> c.display.Length == ClassDEPTH
    ensures ok <==> ClassValid(c)
  {
    if c == null || c.sig != InstClassSig {
      return false;
    }
    if c.name.None? {
      return false;
    }
    if c.level >= ClassDEPTH {
      return false;
    }
    var i := 0;
    while i <= c.level
      invariant 0 <= i <= c.level + 1
      invariant forall j :: 0 <= j < i ==> c.display[j] != 0 && c.display[j] < ClassIdLIMIT
    {
      if c.display[i] == 0 {
        return false;
      }
      if c.display[i] >= ClassIdLIMIT {
        return false;
      }
      i := i + 1;
    }
    i := c.level + 1;
    while i < ClassDEPTH
      invariant c.level + 1 <= i <= ClassDEPTH
      invariant forall j :: c.level < j < i ==> c.display[j] == 0
    {
      if c.display[i] != 0 {
        return false;
      }
      i := i + 1;
    }
    return true;
  }

  /** The root class passes InstClassCheck. */
  lemma RootClassValid(c: InstClass)
    requires IsRootClass(c)
    ensures ClassValid(c)
  {
  }

  /** invalidClassStruct fails InstClassCheck. */
  lemma InvalidClassFails(c: InstClass)
    requires IsInvalidClass(c)
    ensures !ClassValid(c)
  {
  }

  /** DEFINE_CLASS(Inst, Inst, theClass): the root of the hierarchy is its own superclass, at
      level 0, with the display holding only its own id. */
  method InitInstClass(theClass: InstClass)
    requires theClass.display.Length == ClassDEPTH
    modifies theClass, theClass.display
    ensures IsRootClass(theClass)
    ensures ClassValid(theClass)
  {
    theClass.sig := InstClassSig;
    theClass.name := Some("Inst");
    theClass.superclass := theClass;
    var i := 0;
    while i < ClassDEPTH
      invariant 0 <= i <= ClassDEPTH
      invariant forall j :: 0 <= j < i ==> theClass.display[j] == 0
      modifies theClass.display
    {
      theClass.display[i] := 0;
      i := i + 1;
    }
    theClass.level := 0;
    theClass.display[theClass.level] := ClassIdInst;
    RootClassValid(theClass);
  }

  /** InstCheck: the instance's class passes InstClassCheck. */
  method InstCheck(inst: Inst) returns (ok: bool)
    requires inst.klass != null ==> inst.klass.display.Length == ClassDEPTH
    ensures ok <==> InstValid(inst)
  {
    ok := InstClassCheck(inst.klass);
  }

  /** InstInit: the instance becomes a member of the root class and passes InstCheck. */
  method InstInit(inst: Inst, root: InstClass)
    requires IsRootClass(root)
    modifies inst`klass
    ensures inst.klass == root
    ensures InstValid(inst)
  {
    inst.klass := root;
    RootClassValid(root);
  }

  /** InstFinish: a valid instance is pointed at invalidClassStruct and then fails InstCheck. */
  method InstFinish(inst: Inst, invalid: InstClass)
    requires InstValid(inst)
    requires IsInvalidClass(invalid)
    modifies inst`klass
    ensures inst.klass == invalid
    ensures !InstValid(inst)
  {
    inst.klass := invalid;
    InvalidClassFails(invalid);
  }

  /** ClassOf: the class pointer, read without checking the instance. */
  function ClassOf(inst: Inst): (c: InstClass?)
    reads inst
    ensures c == inst.klass
  {
    inst.klass
  }

  /** SetClassOf: a class that passes InstClassCheck becomes the instance's class. */
  method SetClassOf(inst: Inst, c: InstClass)
    requires ClassValid(c)
    modifies inst`klass
    ensures ClassOf(inst) == c
    ensures InstValid(inst)
  {
    inst.klass := c;
  }

  /** An instance's life: after InstInit it passes InstCheck, after InstFinish it fails. */
  method InstanceLifecycle() returns (validAfterInit: bool, validAfterFinish: bool)
    ensures validAfterInit && !validAfterFinish
  {
    var root := new InstClass.Blank();
    InitInstClass(root);
    var invalid := new InstClass.Invalid();
    var inst := new Inst;
    InstInit(inst, root);
    validAfterInit := InstCheck(inst);
    InstFinish(inst, invalid);
    validAfterFinish := InstCheck(inst);
  }
}
