/** The appointment entity (`Consulta`): who, when, and whether it was
    cancelled and why. */
module DominioConsulta {
  import opened Base
  import opened Tempo

  /** The name of a `MotivoCancelamento` enum constant (stored by name). The
      enum's constants are not part of this model. */
  type MotivoCancelamento = string

  /** The field values of one appointment. `id` is `None` until the
      appointment is first saved; `medico` and `paciente` are the ids of the
      referenced entities. */
  datatype Registro = Registro(
    id: Option<int>,
    medico: int,
    paciente: int,
    dataHora: Instante,
    ativo: bool,
    motivoCancelamento: Option<MotivoCancelamento>)
  {
    /** Active exactly when no cancellation reason is recorded. */
    predicate Coerente() {
      ativo <==> motivoCancelamento.None?
    }

    /** The values after `cancelar(motivo)`: no guard on the current state. */
    function Cancelada(motivo: MotivoCancelamento): Registro {
      this.(ativo := false, motivoCancelamento := Some(motivo))
    }
  }

  /** The values set by the three-argument constructor. */
  function Nova(medico: int, paciente: int, dataHora: Instante): Registro {
    Registro(None, medico, paciente, dataHora, true, None)
  }

  /** The values after `cancelar` has been called once per reason, in order. */
  function CancelarSucessivamente(r: Registro, motivos: seq<MotivoCancelamento>): Registro
    decreases |motivos|
  {
    if motivos == [] then r else CancelarSucessivamente(r.Cancelada(motivos[0]), motivos[1..])
  }

  /** A new appointment is active, has no reason, and is coherent. */
  lemma NovaAtiva(medico: int, paciente: int, dataHora: Instante)
    ensures var r := Nova(medico, paciente, dataHora);
      r.ativo && r.motivoCancelamento == None && r.id == None && r.Coerente()
      && r.medico == medico && r.paciente == paciente && r.dataHora == dataHora
  {
  }

  /** Any sequence of cancellations keeps "inactive iff a reason is present",
      never changes id, practitioner, patient or time, never makes the
      appointment active again, and leaves the last reason given. */
  lemma {:induction false} CancelamentosSucessivos(r: Registro, motivos: seq<MotivoCancelamento>)
    requires r.Coerente()
    ensures var f := CancelarSucessivamente(r, motivos);
      f.Coerente()
      && f.id == r.id && f.medico == r.medico && f.paciente == r.paciente && f.dataHora == r.dataHora
      && (motivos == [] ==> f == r)
      && (motivos != [] ==> !f.ativo && f.motivoCancelamento == Some(motivos[|motivos| - 1]))
    decreases |motivos|
  {
    if motivos != [] {
      var r' := r.Cancelada(motivos[0]);
      CancelamentosSucessivos(r', motivos[1..]);
      if |motivos| > 1 {
        assert motivos[1..][|motivos[1..]| - 1] == motivos[|motivos| - 1];
      }
    }
  }

  class Consulta {
    var id: Option<int>
    var medico: int
    var paciente: int
    var dataHora: Instante
    var ativo: bool
    var motivoCancelamento: Option<MotivoCancelamento>

    function Dados(): Registro
      reads this
    {
      Registro(id, medico, paciente, dataHora, ativo, motivoCancelamento)
    }

    /** Starts active, with no reason and no id yet. */
    constructor (medico: int, paciente: int, dataHora: Instante)
      ensures Dados() == Nova(medico, paciente, dataHora)
    {
      this.id := None;
      this.medico := medico;
      this.paciente := paciente;
      this.dataHora := dataHora;
      this.ativo := true;
      this.motivoCancelamento := None;
    }

    /** Logical deletion: inactive with the given reason, whatever the
        current state; id, practitioner, patient and time are kept. */
    method Cancelar(motivo: MotivoCancelamento)
      modifies this
      ensures Dados() == old(Dados()).Cancelada(motivo)
      ensures !ativo && motivoCancelamento == Some(motivo)
      ensures id == old(id) && medico == old(medico) && paciente == old(paciente) && dataHora == old(dataHora)
    {
      this.ativo := false;
      this.motivoCancelamento := Some(motivo);
    }

    /** Entity equality looks at the id alone (two unsaved appointments, both
        without id, are equal). */
    predicate Equals(outra: Consulta)
      reads this, outra
    {
      id == outra.id
    }
  }
}
