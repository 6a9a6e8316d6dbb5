/** cable_cell_param: the check that a cell's global properties supply every
    default the simulator needs, and the NEURON-compatible default values. */
module CableCellParam {
  import opened Wrappers

  /** An IEEE double as far as the check looks at it: NaN or a number. */
  datatype Double = NaN | Finite(v: real)

  /** cable_cell_ion_data: initial internal and external concentrations and
      initial reversal potential. */
  datatype IonData = IonData(initIntConcentration: Double, initExtConcentration: Double, initReversalPotential: Double)

  /** cable_cell_parameter_set. The unordered maps are the key-value pairs in
      the order the program iterates over them (keys distinct); only the keys
      of reversal_potential_method matter, each naming a mechanism. */
  datatype ParameterSet = ParameterSet(
    ionData: seq<(string, IonData)>,
    reversalPotentialMethod: map<string, string>,
    initMembranePotential: Option<Double>,
    temperatureK: Option<Double>,
    axialResistivity: Option<Double>,
    membraneCapacitance: Option<Double>)

  /** cable_cell_global_properties: the ion species with their charges, and
      the default parameters. */
  datatype GlobalProperties = GlobalProperties(ionSpecies: seq<(string, int)>, defaultParameters: ParameterSet)

  /** The cable_cell_error messages, by cause. */
  datatype CableCellError =
    | MissingInitMembranePotential
    | MissingTemperature
    | MissingAxialResistivity
    | MissingMembraneCapacitance
    | MissingIonDefaults(ion: string)
    | MissingInitIntConcentration(ion: string)
    | MissingInitExtConcentration(ion: string)
    | MissingReversalPotential(ion: string)

  function Keys<V>(kvs: seq<(string, V)>): set<string> {
    set i | 0 <= i < |kvs| :: kvs[i].0
  }

  /** The first species, in iteration order, without ion defaults. */
  function MissingSpecies(species: seq<(string, int)>, data: seq<(string, IonData)>): Option<string> {
    if species == [] then None
    else if species[0].0 !in Keys(data) then Some(species[0].0)
    else MissingSpecies(species[1..], data)
  }

  /** The species check reports nothing exactly when every species has ion
      defaults, and otherwise the first one that has none. */
  lemma {:induction false} MissingSpeciesMeaning(species: seq<(string, int)>, data: seq<(string, IonData)>)
    ensures MissingSpecies(species, data).None? <==> forall i :: 0 <= i < |species| ==> species[i].0 in Keys(data)
    ensures MissingSpecies(species, data).Some? ==>
      exists i :: 0 <= i < |species| && species[i].0 == MissingSpecies(species, data).value
        && species[i].0 !in Keys(data) && forall j :: 0 <= j < i ==> species[j].0 in Keys(data)
  {
    if species != [] && species[0].0 in Keys(data) {
      var rest := species[1..];
      MissingSpeciesMeaning(rest, data);
      assert forall j :: 0 < j < |species| ==> species[j] == rest[j - 1];
      if MissingSpecies(rest, data).Some? {
        var i :| 0 <= i < |rest| && rest[i].0 == MissingSpecies(rest, data).value
          && rest[i].0 !in Keys(data) && forall j :: 0 <= j < i ==> rest[j].0 in Keys(data);
        assert species[i + 1] == rest[i];
      }
    } else if species != [] {
      assert species[0].0 == MissingSpecies(species, data).value;
    }
  }

  /** What a single ion data entry may be missing, in the order it is checked:
      a NaN reversal potential is allowed only when a method computes it. */
  function IonProblem(ion: string, d: IonData, methods: map<string, string>): Option<CableCellError> {
    if d.initIntConcentration.NaN? then Some(MissingInitIntConcentration(ion))
    else if d.initExtConcentration.NaN? then Some(MissingInitExtConcentration(ion))
    else if d.initReversalPotential.NaN? && ion !in methods then Some(MissingReversalPotential(ion))
    else None
  }

  /** The first ion data entry, in iteration order, with a problem. */
  function BadIon(data: seq<(string, IonData)>, methods: map<string, string>): Option<CableCellError> {
    if data == [] then None
    else if IonProblem(data[0].0, data[0].1, methods).Some? then IonProblem(data[0].0, data[0].1, methods)
    else BadIon(data[1..], methods)
  }

  /** The ion data check reports nothing exactly when no entry has a
      problem, and otherwise the problem of the first entry that has one. */
  lemma {:induction false} BadIonMeaning(data: seq<(string, IonData)>, methods: map<string, string>)
    ensures BadIon(data, methods).None? <==> forall i :: 0 <= i < |data| ==> IonProblem(data[i].0, data[i].1, methods).None?
    ensures BadIon(data, methods).Some? ==>
      exists i :: 0 <= i < |data| && BadIon(data, methods) == IonProblem(data[i].0, data[i].1, methods)
        && forall j :: 0 <= j < i ==> IonProblem(data[j].0, data[j].1, methods).None?
  {
    if data != [] && IonProblem(data[0].0, data[0].1, methods).None? {
      var rest := data[1..];
      BadIonMeaning(rest, methods);
      assert forall j :: 0 < j < |data| ==> data[j] == rest[j - 1];
      if BadIon(rest, methods).Some? {
        var i :| 0 <= i < |rest| && BadIon(rest, methods) == IonProblem(rest[i].0, rest[i].1, methods)
          && forall j :: 0 <= j < i ==> IonProblem(rest[j].0, rest[j].1, methods).None?;
        assert data[i + 1] == rest[i];
      }
    }
  }

  /** check_global_properties: None when the properties are complete, else
      the error it throws. */
  function CheckGlobalProperties(g: GlobalProperties): Option<CableCellError> {
    var param := g.defaultParameters;
    if param.initMembranePotential.None? then Some(MissingInitMembranePotential)
    else if param.temperatureK.None? then Some(MissingTemperature)
    else if param.axialResistivity.None? then Some(MissingAxialResistivity)
    else if param.membraneCapacitance.None? then Some(MissingMembraneCapacitance)
    else match MissingSpecies(g.ionSpecies, param.ionData)
      case Some(ion) => Some(MissingIonDefaults(ion))
      case None => BadIon(param.ionData, param.reversalPotentialMethod)
  }

  /** Complete global properties, stated independently of the check: the four
      scalar defaults are set, every species has ion defaults, and every ion
      has both concentrations and either a reversal potential or a method. */
  predicate Complete(g: GlobalProperties) {
    var param := g.defaultParameters;
    && param.initMembranePotential.Some?
    && param.temperatureK.Some?
    && param.axialResistivity.Some?
    && param.membraneCapacitance.Some?
    && (forall i :: 0 <= i < |g.ionSpecies| ==> g.ionSpecies[i].0 in Keys(param.ionData))
    && (forall i :: 0 <= i < |param.ionData| ==>
          && param.ionData[i].1.initIntConcentration.Finite?
          && param.ionData[i].1.initExtConcentration.Finite?
          && (param.ionData[i].1.initReversalPotential.Finite? || param.ionData[i].0 in param.reversalPotentialMethod))
  }

  /** The check passes exactly for complete properties. */
  lemma CheckComplete(g: GlobalProperties)
    ensures CheckGlobalProperties(g).None? <==> Complete(g)
  {
    var param := g.defaultParameters;
    var data := param.ionData;
    MissingSpeciesMeaning(g.ionSpecies, data);
    BadIonMeaning(data, param.reversalPotentialMethod);
    assert (forall i :: 0 <= i < |data| ==> IonProblem(data[i].0, data[i].1, param.reversalPotentialMethod).None?) <==>
      (forall i :: 0 <= i < |data| ==>
        && data[i].1.initIntConcentration.Finite?
        && data[i].1.initExtConcentration.Finite?
        && (data[i].1.initReversalPotential.Finite? || data[i].0 in param.reversalPotentialMethod));
  }

  /** The scalar defaults are checked first, in a fixed order, and the first
      one missing decides the error; species coverage comes next, then the
      ion data entries. */
  lemma CheckOrder(g: GlobalProperties)
    ensures var p := g.defaultParameters;
      && (CheckGlobalProperties(g) == Some(MissingInitMembranePotential) <==> p.initMembranePotential.None?)
      && (CheckGlobalProperties(g) == Some(MissingTemperature) <==>
            p.initMembranePotential.Some? && p.temperatureK.None?)
      && (CheckGlobalProperties(g) == Some(MissingAxialResistivity) <==>
            p.initMembranePotential.Some? && p.temperatureK.Some? && p.axialResistivity.None?)
      && (CheckGlobalProperties(g) == Some(MissingMembraneCapacitance) <==>
            p.initMembranePotential.Some? && p.temperatureK.Some? && p.axialResistivity.Some?
            && p.membraneCapacitance.None?)
    ensures CheckGlobalProperties(g).Some? && CheckGlobalProperties(g).value.MissingIonDefaults? ==>
      exists i :: 0 <= i < |g.ionSpecies| && g.ionSpecies[i].0 == CheckGlobalProperties(g).value.ion
        && g.ionSpecies[i].0 !in Keys(g.defaultParameters.ionData)
        && forall j :: 0 <= j < i ==> g.ionSpecies[j].0 in Keys(g.defaultParameters.ionData)
    ensures (CheckGlobalProperties(g).Some? &&
             (CheckGlobalProperties(g).value.MissingInitIntConcentration? ||
              CheckGlobalProperties(g).value.MissingInitExtConcentration? ||
              CheckGlobalProperties(g).value.MissingReversalPotential?)) ==>
      MissingSpecies(g.ionSpecies, g.defaultParameters.ionData).None?
  {
    var p := g.defaultParameters;
    if p.initMembranePotential.Some? && p.temperatureK.Some? && p.axialResistivity.Some? && p.membraneCapacitance.Some? {
      MissingSpeciesMeaning(g.ionSpecies, p.ionData);
      BadIonMeaning(p.ionData, p.reversalPotentialMethod);
      match MissingSpecies(g.ionSpecies, p.ionData)
      case Some(_) =>
      case None =>
        var r := BadIon(p.ionData, p.reversalPotentialMethod);
        if r.Some? {
          var i :| 0 <= i < |p.ionData| && r == IonProblem(p.ionData[i].0, p.ionData[i].1, p.reversalPotentialMethod);
        }
    }
  }

  /** The ion defaults of neuron_parameter_defaults. The calcium reversal
      potential, 12.5 ln(2.0/5e-5) mV, is the parameter `caReversal`. */
  function NeuronIonDefaults(caReversal: real): seq<(string, IonData)> {
    [ ("na", IonData(Finite(10.0), Finite(140.0), Finite(115.0 - 65.0))),
      ("k", IonData(Finite(54.4), Finite(2.5), Finite(-12.0 - 65.0))),
      ("ca", IonData(Finite(0.00005), Finite(2.0), Finite(caReversal))) ]
  }

  /** neuron_parameter_defaults: -65 mV resting potential, 6.3 degrees C,
      35.4 ohm cm, 0.01 F/m^2, and no reversal potential methods. */
  function NeuronParameterDefaults(caReversal: real): ParameterSet {
    ParameterSet(NeuronIonDefaults(caReversal), map[], Some(Finite(-65.0)), Some(Finite(6.3 + 273.15)),
      Some(Finite(35.4)), Some(Finite(0.01)))
  }

  /** The defaults pass the check for any species drawn from na, k and ca. */
  lemma DefaultsPass(species: seq<(string, int)>, caReversal: real)
    requires forall i :: 0 <= i < |species| ==> species[i].0 in {"na", "k", "ca"}
    ensures CheckGlobalProperties(GlobalProperties(species, NeuronParameterDefaults(caReversal))).None?
  {
    var data := NeuronIonDefaults(caReversal);
    assert data[0].0 == "na" && data[1].0 == "k" && data[2].0 == "ca";
    assert Keys(data) == {"na", "k", "ca"};
    CheckComplete(GlobalProperties(species, NeuronParameterDefaults(caReversal)));
  }
}
