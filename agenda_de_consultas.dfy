/** The scheduling and cancellation service over an in-memory store: the
    appointment table holds the `Consulta` objects themselves, so cancelling
    updates the stored entity in place. */
module Agendamento {
  import opened Base
  import opened Tempo
  import opened DominioConsulta
  import opened RegrasDeAgendamento
  import CR = ConsultaRepository
  import MR = MedicoRepository

  class AgendaDeConsultas {
    /** The appointment repository: id to stored entity. */
    var consultas: map<int, Consulta>
    /** The next id the repository generates on a first save. */
    var proximoId: int
    /** The patient and practitioner repositories, read-only for this service. */
    const pacientes: map<int, Paciente>
    const medicos: map<int, MR.Medico>

    /** Every stored appointment carries its own key as id, and every key is
        below the next id to be generated. */
    ghost predicate Valid()
      reads this, consultas.Values
    {
      forall k :: k in consultas ==> consultas[k].id == Some(k) && k < proximoId
    }

    /** The values of the stored appointments. */
    function Registros(): CR.Tabela
      reads this, consultas.Values
    {
      map k | k in consultas :: consultas[k].Dados()
    }

    constructor (pacientes: map<int, Paciente>, medicos: map<int, MR.Medico>)
      ensures Valid() && Registros() == map[]
      ensures this.pacientes == pacientes && this.medicos == medicos
    {
      this.consultas := map[];
      this.proximoId := 0;
      this.pacientes := pacientes;
      this.medicos := medicos;
    }

    /** Stored entities are equal (by id) exactly when they are stored under
        the same key. */
    lemma IgualdadePorChave(i: int, j: int)
      requires Valid() && i in consultas && j in consultas
      ensures consultas[i].Equals(consultas[j]) <==> i == j
    {
    }

    /** `save` of a new entity: the repository gives it the next id and
        stores it under that id; no stored appointment changes. */
    method Save(consulta: Consulta)
      requires Valid() && consulta.id == None
      modifies this, consulta
      ensures Valid()
      ensures consulta.Dados() == old(consulta.Dados()).(id := Some(old(proximoId)))
      ensures old(proximoId) !in old(Registros())
      ensures consultas == old(consultas)[old(proximoId) := consulta] && proximoId == old(proximoId) + 1
      ensures Registros() == old(Registros())[old(proximoId) := old(consulta.Dados()).(id := Some(old(proximoId)))]
    {
      ghost var antes := Registros();
      forall k | k in consultas
        ensures consultas[k] != consulta
      {
        assert consultas[k].id == Some(k);
      }
      consulta.id := Some(proximoId);
      consultas := consultas[proximoId := consulta];
      proximoId := proximoId + 1;
      forall k | k in consultas
        ensures k in antes || k == proximoId - 1
      {
      }
      assert Registros() == antes[proximoId - 1 := consulta.Dados()];
    }

    /** `escolherMedicoAleatorio`: delegates to the repository's query. */
    method EscolherMedicoAleatorio(data: Instante) returns (medico: Option<int>)
      ensures medico.None? <==> MR.Livres(medicos, Registros(), data) == {}
      ensures medico.Some? ==> medico.value in MR.Livres(medicos, Registros(), data)
    {
      medico := MR.EscolherMedicoAleatorioLivreNaData(medicos, Registros(), data);
      MR.LivresVazio(medicos, Registros(), data);
    }

    /** `agendar`: runs the checks in order and, only if every one passes,
        saves one new active appointment and returns its detail. */
    method Agendar(idPaciente: int, idMedico: Option<int>, data: Instante, agora: Instante)
      returns (r: Result<DadosDetalhamentoConsulta, Erro>)
      requires Valid()
      modifies this
      ensures Valid()
      ensures r.Failure? <==> Rejeicao(old(Registros()), pacientes, medicos, idPaciente, idMedico, data, agora).Some?
      ensures r.Failure? ==>
        Rejeicao(old(Registros()), pacientes, medicos, idPaciente, idMedico, data, agora) == Some(r.error)
        && consultas == old(consultas) && proximoId == old(proximoId) && Registros() == old(Registros())
      ensures r.Success? ==>
        r.value.id == old(proximoId) && r.value.id !in old(Registros())
        && r.value.idPaciente == idPaciente && r.value.data == data
        && MedicoResolvido(old(Registros()), medicos, idMedico, data, r.value.idMedico)
        && r.value.idMedico in MR.Livres(medicos, old(Registros()), data)
        && Registros() == old(Registros())[r.value.id := Registro(Some(r.value.id), r.value.idMedico, idPaciente, data, true, None)]
      ensures r.Success? ==> r.value.id in consultas && fresh(consultas[r.value.id])
      ensures forall k :: k in consultas && k !in old(consultas) ==> fresh(consultas[k])
      ensures forall k :: k in old(consultas) ==> k in consultas && consultas[k] == old(consultas)[k]
      ensures old(Consistente(Registros())) ==> Consistente(Registros())
    {
      ghost var antes := Registros();
      if !(idPaciente in pacientes && pacientes[idPaciente].ativo) {
        return Failure(PacienteInexistenteOuInativo);
      }
      var medico: Option<int> := None;
      if idMedico.Some? {
        if !(idMedico.value in medicos && medicos[idMedico.value].ativo) {
          return Failure(MedicoInexistenteOuInativo);
        }
        medico := idMedico;
      }

      var erro := ValidarHorarioFuncionamento(data);
      if erro.Some? { return Failure(erro.value); }
      erro := ValidarAntecedenciaMinima(data, agora);
      if erro.Some? { return Failure(erro.value); }
      var tabela := Registros();
      erro := ValidarPacienteComOutraConsultaNoDia(tabela, idPaciente, data);
      if erro.Some? { return Failure(erro.value); }

      if medico.None? {
        medico := EscolherMedicoAleatorio(data);
      } else {
        erro := ValidarMedicoOcupado(tabela, medico.value, data);
        if erro.Some? { return Failure(erro.value); }
      }
      if medico.None? {
        return Failure(NenhumMedicoDisponivel);
      }

      var consulta := new Consulta(medico.value, idPaciente, data);
      Save(consulta);
      r := Success(DadosDetalhamentoConsulta(consulta.id.value, consulta.medico, consulta.paciente, consulta.dataHora));
      MedicoResolvidoLivre(antes, pacientes, medicos, idPaciente, idMedico, data, agora, medico.value);
      if Consistente(antes) {
        AgendamentoPreservaConsistencia(antes, pacientes, medicos, idPaciente, idMedico, data, agora, medico.value, r.value.id);
      }
    }

    /** `cancelar`: the appointment must exist and be at least 24 hours
        ahead; then that entity alone becomes inactive with the reason. */
    method Cancelar(idConsulta: int, motivo: MotivoCancelamento, agora: Instante) returns (erro: Option<Erro>)
      requires Valid()
      modifies if idConsulta in consultas then {consultas[idConsulta]} else {}
      ensures Valid()
      ensures erro == RejeicaoCancelamento(old(Registros()), idConsulta, agora)
      ensures erro.Some? ==> Registros() == old(Registros())
      ensures erro.None? ==>
        Registros() == old(Registros())[idConsulta := old(Registros())[idConsulta].Cancelada(motivo)]
      ensures old(Consistente(Registros())) ==> Consistente(Registros())
    {
      ghost var antes := Registros();
      if idConsulta !in consultas {
        return Some(ConsultaInexistente);
      }
      var consulta := consultas[idConsulta];
      if consulta.dataHora < agora + AntecedenciaCancelamento {
        return Some(CancelamentoSemAntecedencia);
      }
      consulta.Cancelar(motivo);
      erro := None;
      forall k | k in consultas && k != idConsulta
        ensures consultas[k].Dados() == antes[k]
      {
        assert consultas[k].id != consulta.id;
      }
      assert Registros() == antes[idConsulta := antes[idConsulta].Cancelada(motivo)];
      if Consistente(antes) {
        CancelamentoPreservaConsistencia(antes, idConsulta, motivo);
      }
    }
  }

  /** Booking and then cancelling through the service: an active patient asks
      a day ahead for Tuesday 10:00 with no practitioner named, the only
      practitioner is chosen, and cancelling that appointment 24 hours ahead
      leaves no active appointment in the listing, whatever the reason. */
  method CenarioAgendarECancelar(motivo: MotivoCancelamento) returns (reserva: Result<DadosDetalhamentoConsulta, Erro>, erro: Option<Erro>, listagem: CR.Tabela)
    ensures reserva.Success? && reserva.value.idMedico == 7 && reserva.value.idPaciente == 1 && reserva.value.data == Em(5, 10, 0)
    ensures erro.None?
    ensures listagem == map[]
  {
    var agenda := new AgendaDeConsultas(map[1 := Paciente(true)], map[7 := MR.Medico(true)]);
    var dia := Em(5, 10, 0);
    var agora := Em(4, 10, 0);
    assert DiaDaSemana(dia) == 1;
    MR.LivresVazio(agenda.medicos, agenda.Registros(), dia);
    assert 7 in MR.Livres(agenda.medicos, agenda.Registros(), dia);
    reserva := agenda.Agendar(1, None, dia, agora);
    assert MR.Livres(map[7 := MR.Medico(true)], map[], dia) == {7};
    erro := agenda.Cancelar(reserva.value.id, motivo, agora);
    listagem := CR.FindAllByAtivoTrue(agenda.Registros());
    assert agenda.Registros() == map[reserva.value.id := Registro(Some(reserva.value.id), 7, 1, dia, false, Some(motivo))];
  }

  /** An earlier booking can still be cancelled after a later one: practitioner
      7 is booked for patient 1 on Tuesday 10:00 and for patient 2 on
      Wednesday 10:00, and cancelling the first leaves only the second listed. */
  method CenarioCancelarAposOutraReserva(motivo: MotivoCancelamento)
    returns (primeira: Result<DadosDetalhamentoConsulta, Erro>, segunda: Result<DadosDetalhamentoConsulta, Erro>,
             erro: Option<Erro>, listagem: CR.Tabela)
    ensures primeira.Success? && segunda.Success? && primeira.value.id != segunda.value.id
    ensures erro.None?
    ensures listagem.Keys == {segunda.value.id}
  {
    var agenda := new AgendaDeConsultas(map[1 := Paciente(true), 2 := Paciente(true)], map[7 := MR.Medico(true)]);
    var agora := Em(4, 10, 0);
    assert DiaDaSemana(Em(5, 10, 0)) == 1 && DiaDaSemana(Em(6, 10, 0)) == 2;
    assert ValidarHorarioFuncionamento(Em(5, 10, 0)) == None && ValidarHorarioFuncionamento(Em(6, 10, 0)) == None;
    primeira := agenda.Agendar(1, Some(7), Em(5, 10, 0), agora);
    var id1 := primeira.value.id;
    var apos := agenda.Registros();
    assert apos == map[id1 := Registro(Some(id1), 7, 1, Em(5, 10, 0), true, None)];
    assert !CR.ExistsByPacienteIdAndDataHoraBetweenAndAtivoTrue(apos, 2, ComHora(Em(6, 10, 0), HoraAbertura), ComHora(Em(6, 10, 0), HoraFechamento));
    assert !CR.ExistsByMedicoIdAndDataHoraAndAtivoTrue(apos, 7, Em(6, 10, 0));
    segunda := agenda.Agendar(2, Some(7), Em(6, 10, 0), agora);
    erro := agenda.Cancelar(id1, motivo, agora);
    listagem := CR.FindAllByAtivoTrue(agenda.Registros());
  }
}
